/** `execOrderFieldSelect`: pages that each start beyond the last row of the one before. */
module SqlKeyset {
  import opened Options
  import opened SqlWhere
  import opened SqlSelect

  datatype Sort = Asc | Desc

  datatype Operator = Greater | Less

  predicate Precedes(sort: Sort, a: int, b: int) {
    if sort.Asc? then a < b else a > b
  }

  /** The rows as `ORDER BY field` lists them, when no value occurs twice. */
  ghost predicate Ordered(rows: seq<Row>, field: string, sort: Sort) {
    forall i, j | 0 <= i < j < |rows| :: Precedes(sort, Cell(rows[i], field), Cell(rows[j], field))
  }

  predicate Compare(operator: Operator, a: int, b: int) {
    if operator.Greater? then a > b else a < b
  }

  function OneIsOne(): Token {
    Atom(r => true)
  }

  function Beyond(field: string, operator: Operator, last: int): Token {
    Atom(r => Compare(operator, Cell(r, field), last))
  }

  function Mode(q: QueryCond, c: CondText): seq<Token> {
    if q.fixedCols != [] || c.Text? then [And] else []
  }

  /** The condition of the first page. */
  function FirstCond(q: QueryCond, c: CondText): CondText {
    Where(c, Mode(q, c) + [OneIsOne()])
  }

  /** The condition of a page behind the row whose field is `last`. */
  function NextCond(q: QueryCond, c: CondText, field: string, operator: Operator, last: int): CondText {
    Where(Where(c, Mode(q, c) + [Beyond(field, operator, last)]), [And, OneIsOne()])
  }

  /** Both texts parse exactly if the user's condition does, where there is one, and there is
      one where there are fixed columns: otherwise the `AND` written here meets the one that
      `BuildQuery` adds. */
  lemma KeysetTextParses(q: QueryCond, c: CondText, field: string, operator: Operator, last: int)
    requires |q.fixedCols| == |q.fixedVals|
    ensures WellFormed(WhereTokens(q, FirstCond(q, c), q.inVals)) <==> KeysetParses(q, c)
    ensures WellFormed(WhereTokens(q, NextCond(q, c, field, operator, last), q.inVals)) <==> KeysetParses(q, c)
  {
    var key, one := [Beyond(field, operator, last)], [OneIsOne()];
    WhereParses(q, FirstCond(q, c), q.inVals);
    WhereParses(q, NextCond(q, c, field, operator, last), q.inVals);
    JoinedWellFormed(Tokens(c), one);
    JoinedWellFormed(Tokens(c), key);
    JoinedWellFormed(Tokens(c) + Mode(q, c) + key, one);
    assert Tokens(c) + (Mode(q, c) + key) == Tokens(c) + Mode(q, c) + key;
    assert Tokens(c) + (Mode(q, c) + one) == Tokens(c) + Mode(q, c) + one;
    assert NextCond(q, c, field, operator, last).tokens == Tokens(c) + Mode(q, c) + key + [And] + one;
    if Mode(q, c) == [] {
      assert Tokens(c) + Mode(q, c) + key == key && Tokens(c) + Mode(q, c) + one == one;
    }
  }

  predicate KeysetParses(q: QueryCond, c: CondText) {
    && (match c case Empty => q.fixedCols == [] case Text(ts) => WellFormed(ts))
    && (q.inVals != [] ==> q.inCols != [])
  }

  /** What the user asked to select. */
  predicate Asked(q: QueryCond, c: CondText, r: Row)
    requires |q.fixedCols| == |q.fixedVals| && KeysetParses(q, c)
  {
    Fixed(q, r) && (c.Text? ==> Holds(c.tokens, r, true)) && Listed(q, q.inVals, r)
  }

  /** A row that an alternative before the last selects: nothing behind the condition
      restricts it. */
  predicate Escapes(q: QueryCond, c: CondText, r: Row)
    requires |q.fixedCols| == |q.fixedVals| && KeysetParses(q, c)
  {
    c.Text? && Early(c.tokens, r, Fixed(q, r))
  }

  predicate ByLast(q: QueryCond, c: CondText, r: Row)
    requires |q.fixedCols| == |q.fixedVals| && KeysetParses(q, c)
  {
    (if c.Text? then Holds(c.tokens, r, Fixed(q, r)) else Fixed(q, r)) && Listed(q, q.inVals, r)
  }

  /** A condition with more text behind it, as `mode` links them. */
  lemma ExtendedMeans(q: QueryCond, c: CondText, more: seq<Token>, r: Row)
    requires |q.fixedCols| == |q.fixedVals| && KeysetParses(q, c) && WellFormed(more) && OrFree(more)
    ensures WellFormed(WhereTokens(q, Where(c, Mode(q, c) + more), q.inVals))
    ensures Holds(WhereTokens(q, Where(c, Mode(q, c) + more), q.inVals), r, true) <==>
      Escapes(q, c, r) || (ByLast(q, c, r) && Holds(more, r, true))
  {
    var c' := Where(c, Mode(q, c) + more);
    var fixed := Fixed(q, r);
    assert c'.tokens == Tokens(c) + Mode(q, c) + more;
    if c.Text? {
      AndBindsToLast(c.tokens, more, r, fixed);
      EarlyStays(c.tokens, more, r, fixed);
    } else {
      assert c'.tokens == more;
      BeforeSplits(more, r, fixed);
    }
    WhereParses(q, c', q.inVals);
    WhereMeans(q, c', q.inVals, r);
  }

  /** The first text selects the rows that escape and those the last alternative selects; a
      later text adds to the latter only that they lie beyond the last row. */
  lemma KeysetTextMeans(q: QueryCond, c: CondText, field: string, operator: Operator, last: int, r: Row)
    requires |q.fixedCols| == |q.fixedVals| && KeysetParses(q, c)
    ensures WellFormed(WhereTokens(q, FirstCond(q, c), q.inVals))
    ensures WellFormed(WhereTokens(q, NextCond(q, c, field, operator, last), q.inVals))
    ensures Holds(WhereTokens(q, FirstCond(q, c), q.inVals), r, true) <==> Escapes(q, c, r) || ByLast(q, c, r)
    ensures Holds(WhereTokens(q, NextCond(q, c, field, operator, last), q.inVals), r, true) <==>
      Escapes(q, c, r) || (ByLast(q, c, r) && Compare(operator, Cell(r, field), last))
    ensures OrFree(Tokens(c)) ==> !Escapes(q, c, r) && ByLast(q, c, r) == Asked(q, c, r)
  {
    var key, one := [Beyond(field, operator, last)], [OneIsOne()];
    var rest := key + [And] + one;
    assert rest[2..] == one;
    assert Holds(one, r, true) && Holds(rest, r, true) == Compare(operator, Cell(r, field), last);
    assert Tokens(c) + (Mode(q, c) + key) + [And, OneIsOne()] == Tokens(c) + (Mode(q, c) + rest);
    assert NextCond(q, c, field, operator, last) == Where(c, Mode(q, c) + rest);
    ExtendedMeans(q, c, one, r);
    ExtendedMeans(q, c, rest, r);
    if OrFree(Tokens(c)) && c.Text? {
      BeforeSplits(c.tokens, r, Fixed(q, r));
    }
  }

  /** A bare `OR` lets a row of an earlier page in again. */
  lemma OrLetsRowsBack(field: string, r: Row)
    ensures var q := QueryCond([], [], [], [], 0);
      var c := Text([Atom(x => true), Or, Atom(x => false)]);
      var tokens := WhereTokens(q, NextCond(q, c, field, Greater, Cell(r, field)), []);
      WellFormed(tokens) && Holds(tokens, r, true)
  {
    var q := QueryCond([], [], [], [], 0);
    var c := Text([Atom(x => true), Or, Atom(x => false)]);
    KeysetTextParses(q, c, field, Greater, Cell(r, field));
  }

  predicate Matches(sort: Sort, operator: Operator) {
    sort.Asc? <==> operator.Greater?
  }

  /** What the text of the first page selects, in order. */
  function AllSent(rows: seq<Row>, q: QueryCond, c: CondText): seq<Row>
    requires |q.fixedCols| == |q.fixedVals| && KeysetParses(q, c)
  {
    Filter(rows, r => Escapes(q, c, r) || ByLast(q, c, r))
  }

  /** The rows asked for, in the order asked for. */
  function AllAsked(rows: seq<Row>, q: QueryCond, c: CondText): seq<Row>
    requires |q.fixedCols| == |q.fixedVals| && KeysetParses(q, c)
  {
    Filter(rows, r => Asked(q, c, r))
  }

  lemma {:induction false} FilterWithin(rows: seq<Row>, p: Row -> bool, k: nat)
    requires k < |Filter(rows, p)|
    ensures Filter(rows, p)[k] in rows
  {
    if p(rows[0]) {
      if k > 0 {
        FilterWithin(rows[1..], p, k - 1);
      }
    } else {
      FilterWithin(rows[1..], p, k);
    }
  }

  lemma {:induction false} FilterOrdered(rows: seq<Row>, p: Row -> bool, field: string, sort: Sort)
    requires Ordered(rows, field, sort)
    ensures Ordered(Filter(rows, p), field, sort)
  {
    if rows != [] {
      var rest := rows[1..];
      assert forall i | 0 <= i < |rest| :: rest[i] == rows[i + 1];
      FilterOrdered(rest, p, field, sort);
      forall k | 0 <= k < |Filter(rest, p)|
        ensures Precedes(sort, Cell(rows[0], field), Cell(Filter(rest, p)[k], field))
      {
        FilterWithin(rest, p, k);
      }
    }
  }

  /** `next` is what is behind row `k`, if no row up to it passes `e`; otherwise one of those
      comes first. */
  ghost predicate Behind(all: seq<Row>, e: Row -> bool, k: nat, next: seq<Row>)
    requires k < |all|
  {
    if exists i :: 0 <= i <= k && e(all[i]) then next != [] && next[0] in all[..k + 1] else next == all[k + 1..]
  }

  lemma BehindCons(x: Row, tail: seq<Row>, e: Row -> bool, k: nat, next: seq<Row>)
    requires 0 < k <= |tail| && !e(x) && Behind(tail, e, k - 1, next)
    ensures Behind([x] + tail, e, k, next)
  {
    var all := [x] + tail;
    assert all[k + 1..] == tail[k..] && all[..k + 1] == [x] + tail[..k];
    assert forall i | 1 <= i <= k :: all[i] == tail[i - 1];
    if i :| 0 <= i <= k - 1 && e(tail[i]) {
      assert e(all[i + 1]);
    }
  }

  /** Of rows in order, those beyond the k-th that passes are the ones behind it, if none up to
      it escapes the bound. */
  lemma {:induction false} BeyondIsBehind(rows: seq<Row>, e: Row -> bool, l: Row -> bool, p: Row -> bool,
      p': Row -> bool, field: string, sort: Sort, operator: Operator, k: nat)
    requires Ordered(rows, field, sort) && Matches(sort, operator) && k < |Filter(rows, p)|
    requires forall r <- rows :: p(r) == (e(r) || l(r))
    requires forall r <- rows ::
      p'(r) == (e(r) || (l(r) && Compare(operator, Cell(r, field), Cell(Filter(rows, p)[k], field))))
    ensures Behind(Filter(rows, p), e, k, Filter(rows, p'))
  {
    var rest, tail := rows[1..], Filter(rows[1..], p);
    assert rows[0] in rows && forall i | 0 <= i < |rest| :: rest[i] == rows[i + 1];
    if p(rows[0]) && e(rows[0]) {
      EscapesFirst(rows, e, p, p', k);
    } else if p(rows[0]) && k == 0 {
      BehindAll(rest, p, p', field, sort, operator, rows[0]);
      assert ([rows[0]] + tail)[1..] == tail;
    } else {
      var k' := if p(rows[0]) then k - 1 else k;
      FilterWithin(rest, p, k');
      BeyondIsBehind(rest, e, l, p, p', field, sort, operator, k');
      if p(rows[0]) {
        BehindCons(rows[0], tail, e, k, Filter(rest, p'));
      }
    }
  }

  lemma EscapesFirst(rows: seq<Row>, e: Row -> bool, p: Row -> bool, p': Row -> bool, k: nat)
    requires rows != [] && e(rows[0]) && p(rows[0]) && p'(rows[0]) && k < |Filter(rows, p)|
    ensures Behind(Filter(rows, p), e, k, Filter(rows, p'))
  {
    var all := Filter(rows, p);
    assert all[0] == rows[0] && all[..k + 1][0] == rows[0] && e(all[0]);
  }

  lemma BehindAll(rest: seq<Row>, p: Row -> bool, p': Row -> bool, field: string, sort: Sort, operator: Operator,
      last: Row)
    requires Matches(sort, operator) && forall r <- rest :: Precedes(sort, Cell(last, field), Cell(r, field))
    requires forall r <- rest :: Compare(operator, Cell(r, field), Cell(last, field)) ==> p'(r) == p(r)
    ensures Filter(rest, p') == Filter(rest, p)
  {
    FilterSame(rest, p, p');
  }

  // Whether the pages stay in place.

  /** The number of rows before the last page, when every page is full. */
  function LastStart(limit: nat, batch: nat): (m: nat)
    requires batch > 0
    ensures limit > 0 ==> m < limit
  {
    if limit <= batch then 0 else batch + LastStart(limit - batch, batch)
  }

  /** The number of rows before the last query: where the rows run out, or the last page. */
  function LastPageAt(all: seq<Row>, offset: nat, limit: nat, batch: nat): nat
    requires batch > 0
  {
    var total := |Page(all, offset, limit)|;
    if total < limit then total else LastStart(limit, batch)
  }

  /** No row up to the m-th of the answer escapes, if there is a query behind it. */
  predicate NoneEscapes(all: seq<Row>, e: Row -> bool, offset: nat, m: nat) {
    m > 0 ==> forall i | 0 <= i < offset + m && i < |all| :: !e(all[i])
  }

  ghost predicate InPlace(all: seq<Row>, e: Row -> bool, offset: nat, limit: nat, batch: nat, result: seq<Row>)
    requires batch > 0
  {
    && |result| <= limit && result == Page(all, offset, |result|)
    && (|result| < limit ==>
          || LastStart(limit, batch) == |result| + LastStart(limit - |result|, batch)
          || result == Page(all, offset, limit))
    && (|result| == limit ==> NoneEscapes(all, e, offset, LastStart(limit, batch)))
  }

  ghost predicate Astray(all: seq<Row>, e: Row -> bool, offset: nat, limit: nat, batch: nat, result: seq<Row>)
    requires batch > 0
  {
    !(result <= Page(all, offset, limit)) && !NoneEscapes(all, e, offset, LastPageAt(all, offset, limit, batch))
  }

  ghost predicate Tracked(all: seq<Row>, e: Row -> bool, offset: nat, limit: nat, batch: nat, result: seq<Row>)
    requires batch > 0
  {
    InPlace(all, e, offset, limit, batch, result) || Astray(all, e, offset, limit, batch, result)
  }

  lemma FirstStep(all: seq<Row>, e: Row -> bool, offset: nat, limit: nat, batch: nat, page: seq<Row>)
    requires limit > 0 && batch > 0 && page == Page(all, offset, Smaller(limit, batch))
    ensures Tracked(all, e, offset, limit, batch, page)
    ensures page == [] ==> Page(all, offset, limit) == [] && LastPageAt(all, offset, limit, batch) == 0
  {
  }

  lemma PageIsItself(all: seq<Row>, offset: nat, n: nat)
    ensures Page(all, offset, |Page(all, offset, n)|) == Page(all, offset, n)
    ensures |Page(all, offset, n)| <= n
  {
  }

  lemma PageOfRest(all: seq<Row>, from: nat, n: nat)
    requires from <= |all|
    ensures Page(all[from..], 0, n) == Page(all, from, n)
  {
  }

  lemma StepInPlace(all: seq<Row>, e: Row -> bool, offset: nat, limit: nat, batch: nat, result: seq<Row>,
      page: seq<Row>)
    requires batch > 0 && 0 < |result| < limit && InPlace(all, e, offset, limit, batch, result)
    requires NoneEscapes(all, e, offset, |result|)
    requires page == Page(all, offset + |result|, Smaller(limit - |result|, batch))
    ensures InPlace(all, e, offset, limit, batch, result + page)
    ensures page == [] ==> result == Page(all, offset, limit) && LastPageAt(all, offset, limit, batch) == |result|
  {
    var m, size := |result|, Smaller(limit - |result|, batch);
    PagesJoin(all, offset, result, page, size, limit);
    RanOut(all, offset, m, limit, size);
    if |page| == size && LastStart(limit, batch) == m + LastStart(limit - m, batch) {
      NextStart(limit, batch, m);
    }
  }

  lemma PagesJoin(all: seq<Row>, offset: nat, result: seq<Row>, page: seq<Row>, size: nat, limit: nat)
    requires |result| + size <= limit && result == Page(all, offset, |result|)
    requires page == Page(all, offset + |result|, size)
    ensures |page| <= size && result + page == Page(all, offset, |result + page|)
    ensures |page| < size ==> result + page == Page(all, offset, limit)
    ensures page == [] ==> result + page == result
  {
    PageStep(all, offset, |result|, size, limit - |result|);
    PageIsItself(all, offset, |result| + size);
    PageIsItself(all, offset + |result|, size);
  }

  lemma NextStart(limit: nat, batch: nat, m: nat)
    requires batch > 0 && m < limit && LastStart(limit, batch) == m + LastStart(limit - m, batch)
    ensures limit - m <= batch ==> LastStart(limit, batch) == m
    ensures limit - m > batch ==> LastStart(limit, batch) == m + batch + LastStart(limit - (m + batch), batch)
  {
  }

  lemma RanOut(all: seq<Row>, offset: nat, m: nat, limit: nat, n: nat)
    requires m < limit
    ensures Page(all, offset, m) == Page(all, offset, limit) ==> Page(all, offset + m, n) == []
  {
  }

  lemma StepAstray(all: seq<Row>, e: Row -> bool, offset: nat, limit: nat, batch: nat, result: seq<Row>, next: seq<Row>,
      page: seq<Row>, field: string, sort: Sort)
    requires batch > 0 && 0 < |result| < limit
    requires InPlace(all, e, offset, limit, batch, result) && offset + |result| <= |all|
    requires !NoneEscapes(all, e, offset, |result|) && next != [] && next[0] in all[..offset + |result|]
    requires page == Page(next, 0, Smaller(limit - |result|, batch)) && Ordered(all, field, sort)
    ensures page != [] && Astray(all, e, offset, limit, batch, result + page)
  {
    var m, target := |result|, Page(all, offset, limit);
    assert page[0] == next[0] == (result + page)[m];
    var p :| 0 <= p < offset + m && all[p] == next[0];
    if m < |target| {
      assert target[m] == all[offset + m];
      assert Precedes(sort, Cell(all[p], field), Cell(all[offset + m], field));
    }
    assert m <= LastPageAt(all, offset, limit, batch);
  }

  lemma TrackStep(all: seq<Row>, e: Row -> bool, offset: nat, limit: nat, batch: nat, result: seq<Row>, next: seq<Row>,
      page: seq<Row>, field: string, sort: Sort)
    requires batch > 0 && 0 < |result| < limit
    requires Tracked(all, e, offset, limit, batch, result) && Ordered(all, field, sort)
    requires page == Page(next, 0, Smaller(limit - |result|, batch))
    requires InPlace(all, e, offset, limit, batch, result) ==>
      offset + |result| <= |all| && Behind(all, e, offset + |result| - 1, next)
    ensures Tracked(all, e, offset, limit, batch, result + page)
    ensures page == [] ==>
      (result == Page(all, offset, limit) <==> NoneEscapes(all, e, offset, LastPageAt(all, offset, limit, batch)))
  {
    if InPlace(all, e, offset, limit, batch, result) {
      if NoneEscapes(all, e, offset, |result|) {
        PageOfRest(all, offset + |result|, Smaller(limit - |result|, batch));
        StepInPlace(all, e, offset, limit, batch, result, page);
      } else {
        StepAstray(all, e, offset, limit, batch, result, next, page, field, sort);
      }
    } else {
      assert (result + page)[..|result|] == result;
    }
  }

  lemma TrackEnd(all: seq<Row>, e: Row -> bool, offset: nat, limit: nat, batch: nat, result: seq<Row>)
    requires batch > 0 && limit == |result| && Tracked(all, e, offset, limit, batch, result)
    ensures result == Page(all, offset, limit) <==> NoneEscapes(all, e, offset, LastPageAt(all, offset, limit, batch))
  {
  }

  /** What the query for the page behind the last row so far selects. */
  lemma PageBehind(rows: seq<Row>, q: QueryCond, c: CondText, field: string, sort: Sort, operator: Operator, k: nat)
    requires |q.fixedCols| == |q.fixedVals| && KeysetParses(q, c)
    requires Ordered(rows, field, sort) && Matches(sort, operator) && k < |AllSent(rows, q, c)|
    ensures var c' := NextCond(q, c, field, operator, Cell(AllSent(rows, q, c)[k], field));
      && WellFormed(WhereTokens(q, c', q.inVals))
      && Behind(AllSent(rows, q, c), r => Escapes(q, c, r), k, Selected(rows, q, c', q.inVals))
  {
    var all, last := AllSent(rows, q, c), Cell(AllSent(rows, q, c)[k], field);
    KeysetTextParses(q, c, field, operator, last);
    var tokens := WhereTokens(q, NextCond(q, c, field, operator, last), q.inVals);
    forall r <- rows
      ensures Test(tokens)(r) == (Escapes(q, c, r) || (ByLast(q, c, r) && Compare(operator, Cell(r, field), last)))
    {
      KeysetTextMeans(q, c, field, operator, last, r);
    }
    BeyondIsBehind(rows, r => Escapes(q, c, r), r => ByLast(q, c, r), r => Escapes(q, c, r) || ByLast(q, c, r),
      Test(tokens), field, sort, operator, k);
  }

  lemma FirstPage(rows: seq<Row>, q: QueryCond, c: CondText)
    requires |q.fixedCols| == |q.fixedVals| && KeysetParses(q, c)
    ensures WellFormed(WhereTokens(q, FirstCond(q, c), q.inVals))
    ensures Selected(rows, q, FirstCond(q, c), q.inVals) == AllSent(rows, q, c)
  {
    KeysetTextParses(q, c, "", Greater, 0);
    var tokens := WhereTokens(q, FirstCond(q, c), q.inVals);
    forall r <- rows
      ensures Test(tokens)(r) == (Escapes(q, c, r) || ByLast(q, c, r))
    {
      KeysetTextMeans(q, c, "", Greater, 0, r);
    }
    FilterSame(rows, Test(tokens), r => Escapes(q, c, r) || ByLast(q, c, r));
  }

  /** Without a bare `OR` nothing escapes, and what is sent is what was asked for. */
  lemma OrFreeSendsAsked(rows: seq<Row>, q: QueryCond, c: CondText, offset: nat, m: nat)
    requires |q.fixedCols| == |q.fixedVals| && KeysetParses(q, c) && OrFree(Tokens(c))
    ensures AllSent(rows, q, c) == AllAsked(rows, q, c)
    ensures NoneEscapes(AllSent(rows, q, c), r => Escapes(q, c, r), offset, m)
  {
    forall r: Row
      ensures !Escapes(q, c, r) && ByLast(q, c, r) == Asked(q, c, r)
    {
      KeysetTextMeans(q, c, "", Greater, 0, r);
    }
    FilterSame(rows, r => Escapes(q, c, r) || ByLast(q, c, r), r => Asked(q, c, r));
  }

  /** With an order the IN values stay together. */
  method SelectOrdered(up: bool, rows: seq<Row>, q: QueryCond, c: CondText, limit: nat, offset: int,
      batchSize: int) returns (r: Result<seq<Row>>)
    requires |q.inVals| <= MAX_INT32 && limit > 0
    ensures r == Err(BadArguments) <==> Refused(q, c, true, limit, offset)
    ensures up && !Refused(q, c, true, limit, offset) && offset >= 0 && WellFormed(WhereTokens(q, c, q.inVals)) ==>
      r.Ok?
    ensures r.Ok? ==> offset >= 0 && |q.fixedCols| == |q.fixedVals| && WellFormed(WhereTokens(q, c, q.inVals))
    ensures r.Ok? ==> r.value == Page(Selected(rows, q, c, q.inVals), offset, limit)
  {
    r := SelectRaw(up, rows, q, c, true, limit, offset, batchSize);
  }

  /** What holds after a page with rows on it. */
  ghost predicate Reached(rows: seq<Row>, q: QueryCond, c: CondText, field: string, offset: int, limit: nat, batch: nat,
      result: seq<Row>, last: int)
    requires batch > 0
  {
    && offset >= 0 && |q.fixedCols| == |q.fixedVals| && KeysetParses(q, c) && !Refused(q, FirstCond(q, c), true, 0, 0)
    && result != [] && last == Cell(result[|result| - 1], field)
    && Tracked(AllSent(rows, q, c), r => Escapes(q, c, r), offset, limit, batch, result)
  }

  /** Are these the rows asked for, from the offset on? Exactly if no row escapes up to where
      the last query starts. */
  ghost predicate RightIff(rows: seq<Row>, q: QueryCond, c: CondText, offset: nat, limit: nat, batch: nat,
      result: seq<Row>)
    requires |q.fixedCols| == |q.fixedVals| && KeysetParses(q, c) && batch > 0
  {
    var all := AllSent(rows, q, c);
    result == Page(all, offset, limit) <==>
      NoneEscapes(all, r => Escapes(q, c, r), offset, LastPageAt(all, offset, limit, batch))
  }

  /** One page: the first with its offset, a later one beyond the last row so far. */
  method SelectPage(up: bool, rows: seq<Row>, q: QueryCond, c: CondText, field: string, sort: Sort, operator: Operator,
      offset: int, batchSize: nat, result: seq<Row>, lastID: Option<int>, limit: nat) returns (r: Result<seq<Row>>)
    requires Ordered(rows, field, sort) && Matches(sort, operator) && |q.inVals| <= MAX_INT32
    requires batchSize > 0 && |result| < limit && (result == [] <==> lastID.None?)
    requires lastID.Some? ==> Reached(rows, q, c, field, offset, limit, batchSize, result, lastID.value)
    ensures r == Err(BadArguments) <==> Refused(q, FirstCond(q, c), true, 0, 0)
    ensures up && !Refused(q, FirstCond(q, c), true, 0, 0) && offset >= 0 && KeysetParses(q, c) ==> r.Ok?
    ensures r.Ok? ==> offset >= 0 && |q.fixedCols| == |q.fixedVals| && KeysetParses(q, c) && |result + r.value| <= limit
    ensures r.Ok? && r.value != [] ==>
      Reached(rows, q, c, field, offset, limit, batchSize, result + r.value, Cell(r.value[|r.value| - 1], field))
    ensures r.Ok? && r.value == [] ==> RightIff(rows, q, c, offset, limit, batchSize, result)
  {
    var remaining := limit - |result|;
    var size := Smaller(remaining, batchSize);
    r := SendPage(up, rows, q, c, field, operator, size, offset, batchSize, lastID);
    if r.Ok? {
      OnePage(rows, q, c, field, sort, operator, offset, batchSize, result, lastID, r.value, limit);
    }
  }

  /** The rows that the text of a page selects, from where it starts. */
  ghost predicate PageSent(rows: seq<Row>, q: QueryCond, c: CondText, field: string, operator: Operator, offset: int,
      last: Option<int>, size: nat, page: seq<Row>)
    requires |q.fixedCols| == |q.fixedVals|
  {
    var c' := if last.Some? then NextCond(q, c, field, operator, last.value) else FirstCond(q, c);
    var from := if last.Some? then 0 else offset;
    from >= 0 && WellFormed(WhereTokens(q, c', q.inVals)) && page == Page(Selected(rows, q, c', q.inVals), from, size)
  }

  method SendPage(up: bool, rows: seq<Row>, q: QueryCond, c: CondText, field: string, operator: Operator, size: nat,
      offset: int, batchSize: nat, lastID: Option<int>) returns (r: Result<seq<Row>>)
    requires |q.inVals| <= MAX_INT32 && size > 0
    ensures r == Err(BadArguments) <==> Refused(q, FirstCond(q, c), true, 0, 0)
    ensures up && !Refused(q, FirstCond(q, c), true, 0, 0) && offset >= 0 && KeysetParses(q, c) ==> r.Ok?
    ensures r.Ok? ==>
      |q.fixedCols| == |q.fixedVals| && PageSent(rows, q, c, field, operator, offset, lastID, size, r.value)
  {
    if |q.fixedCols| == |q.fixedVals| {
      KeysetTextParses(q, c, field, operator, if lastID.Some? then lastID.value else 0);
    }
    if lastID.Some? {
      r := SelectOrdered(up, rows, q, NextCond(q, c, field, operator, lastID.value), size, 0, batchSize);
    } else {
      r := SelectOrdered(up, rows, q, FirstCond(q, c), size, offset, batchSize);
    }
  }

  lemma OnePage(rows: seq<Row>, q: QueryCond, c: CondText, field: string, sort: Sort, operator: Operator, offset: int,
      batch: nat, result: seq<Row>, last: Option<int>, page: seq<Row>, limit: nat)
    requires Ordered(rows, field, sort) && Matches(sort, operator)
    requires batch > 0 && |result| < limit && |q.fixedCols| == |q.fixedVals| && (result == [] <==> last.None?)
    requires last.Some? ==> Reached(rows, q, c, field, offset, limit, batch, result, last.value)
    requires PageSent(rows, q, c, field, operator, offset, last, Smaller(limit - |result|, batch), page)
    ensures offset >= 0 && KeysetParses(q, c) && |page| <= limit - |result|
    ensures Tracked(AllSent(rows, q, c), r => Escapes(q, c, r), offset, limit, batch, result + page)
    ensures page == [] ==> RightIff(rows, q, c, offset, limit, batch, result)
  {
    KeysetTextParses(q, c, field, operator, if last.Some? then last.value else 0);
    var all := AllSent(rows, q, c);
    var e := (r: Row) => Escapes(q, c, r);
    if last.None? {
      FirstPage(rows, q, c);
      FirstStep(all, e, offset, limit, batch, page);
      assert result + page == page;
    } else {
      LaterPage(rows, q, c, field, sort, operator, offset, batch, result, last.value, page, limit);
    }
  }

  lemma LastOfPage(all: seq<Row>, offset: nat, result: seq<Row>)
    requires result != [] && result == Page(all, offset, |result|)
    ensures offset + |result| <= |all| && all[offset + |result| - 1] == result[|result| - 1]
  {
  }

  lemma LaterPage(rows: seq<Row>, q: QueryCond, c: CondText, field: string, sort: Sort, operator: Operator, offset: int,
      batch: nat, result: seq<Row>, last: int, page: seq<Row>, limit: nat)
    requires Ordered(rows, field, sort) && Matches(sort, operator)
    requires batch > 0 && |result| < limit && Reached(rows, q, c, field, offset, limit, batch, result, last)
    requires WellFormed(WhereTokens(q, NextCond(q, c, field, operator, last), q.inVals))
    requires page == Page(Selected(rows, q, NextCond(q, c, field, operator, last), q.inVals), 0,
      Smaller(limit - |result|, batch))
    ensures Tracked(AllSent(rows, q, c), r => Escapes(q, c, r), offset, limit, batch, result + page)
    ensures page == [] ==> RightIff(rows, q, c, offset, limit, batch, result)
  {
    var all := AllSent(rows, q, c);
    var e := (r: Row) => Escapes(q, c, r);
    FilterOrdered(rows, r => Escapes(q, c, r) || ByLast(q, c, r), field, sort);
    if InPlace(all, e, offset, limit, batch, result) {
      LastOfPage(all, offset, result);
      PageBehind(rows, q, c, field, sort, operator, offset + |result| - 1);
    }
    TrackStep(all, e, offset, limit, batch, result, Selected(rows, q, NextCond(q, c, field, operator, last), q.inVals),
      page, field, sort);
  }

  function PageSize(batchSize: int): (size: nat)
    ensures size > 0
  {
    if batchSize <= 0 then BATCH_SIZE else batchSize
  }

  /** Each page starts beyond the last row of the one before. Together they are rows
      `[offset, offset + limit)` of the answer to one plain query, exactly if no row up to
      where the last query starts escapes through a bare `OR`; without one they always are. */
  method ExecOrderFieldSelect(up: bool, rows: seq<Row>, q: QueryCond, c: CondText, field: string, sort: Sort,
      operator: Operator, limit: nat, offset: int, batchSize: int) returns (r: Result<seq<Row>>)
    requires Ordered(rows, field, sort) && Matches(sort, operator) && |q.inVals| <= MAX_INT32
    ensures r == Err(BadArguments) <==>
      offset > limit || (limit > 0 && Refused(q, FirstCond(q, c), true, limit, offset))
    ensures up && r != Err(BadArguments) && (limit > 0 ==> offset >= 0 && KeysetParses(q, c)) ==> r.Ok?
    ensures r.Ok? && limit > 0 ==> offset >= 0 && |q.fixedCols| == |q.fixedVals| && KeysetParses(q, c)
    ensures r.Ok? && limit > 0 ==> RightIff(rows, q, c, offset, limit, PageSize(batchSize), r.value)
    ensures r.Ok? && limit > 0 && OrFree(Tokens(c)) ==> r.value == Page(AllAsked(rows, q, c), offset, limit)
    ensures r.Ok? ==> |r.value| <= limit
  {
    var pageSize := batchSize;
    if pageSize <= 0 {
      pageSize := BATCH_SIZE;
    }
    var result: seq<Row> := [];
    if offset > limit {
      return Err(BadArguments);
    }
    var lastID: Option<int> := None;
    while |result| < limit
      invariant |result| <= limit && (result == [] <==> lastID.None?)
      invariant lastID.Some? ==> Reached(rows, q, c, field, offset, limit, pageSize, result, lastID.value)
      decreases limit - |result|
    {
      var page := SelectPage(up, rows, q, c, field, sort, operator, offset, pageSize, result, lastID, limit);
      if page.Err? {
        return page;
      }
      if |page.value| == 0 {
        Finished(rows, q, c, offset, limit, pageSize, result);
        return Ok(result);
      }
      lastID := Some(Cell(page.value[|page.value| - 1], field));
      result := result + page.value;
    }
    if limit > 0 {
      TrackEnd(AllSent(rows, q, c), r => Escapes(q, c, r), offset, limit, pageSize, result);
      Finished(rows, q, c, offset, limit, pageSize, result);
    }
    return Ok(result);
  }

  lemma Finished(rows: seq<Row>, q: QueryCond, c: CondText, offset: nat, limit: nat, batch: nat, result: seq<Row>)
    requires |q.fixedCols| == |q.fixedVals| && KeysetParses(q, c) && batch > 0
    requires RightIff(rows, q, c, offset, limit, batch, result)
    ensures OrFree(Tokens(c)) ==> result == Page(AllAsked(rows, q, c), offset, limit)
  {
    if OrFree(Tokens(c)) {
      OrFreeSendsAsked(rows, q, c, offset, LastPageAt(AllSent(rows, q, c), offset, limit, batch));
    }
  }

  /** `Exec` pairs the direction with the comparison that leads on in it. */
  method Exec(up: bool, rows: seq<Row>, q: QueryCond, c: CondText, hasOrder: bool, orderField: string,
      isDescOrderField: bool, limit: int, offset: int, batchSize: int) returns (r: Result<seq<Row>>)
    requires orderField != "" ==>
      limit >= 0 && Ordered(rows, orderField, if isDescOrderField then Desc else Asc) && |q.inVals| <= MAX_INT32
    ensures r == Err(BadArguments) <==>
      if orderField == "" then Refused(q, c, hasOrder, limit, offset)
      else offset > limit || (limit > 0 && Refused(q, FirstCond(q, c), true, limit, offset))
    ensures up && r != Err(BadArguments) && orderField == "" && offset >= 0 ==>
      (WellFormed(WhereTokens(q, c, q.inVals)) ==> r.Ok?)
    ensures up && r != Err(BadArguments) && orderField != "" && (limit > 0 ==> offset >= 0 && KeysetParses(q, c)) ==>
      r.Ok?
    ensures r.Ok? && orderField == "" ==>
      && offset >= 0 && |q.fixedCols| == |q.fixedVals| && WellFormed(WhereTokens(q, c, q.inVals))
      && Answers(rows, q, c, hasOrder, limit, offset, r.value)
    ensures r.Ok? && orderField != "" && limit > 0 ==>
      offset >= 0 && |q.fixedCols| == |q.fixedVals| && KeysetParses(q, c)
    ensures r.Ok? && orderField != "" && limit > 0 ==> RightIff(rows, q, c, offset, limit, PageSize(batchSize), r.value)
    ensures r.Ok? && orderField != "" && limit > 0 && OrFree(Tokens(c)) ==>
      r.value == Page(AllAsked(rows, q, c), offset, limit)
  {
    if |orderField| <= 0 {
      r := SelectRaw(up, rows, q, c, hasOrder, limit, offset, batchSize);
    } else if isDescOrderField {
      r := ExecOrderFieldSelect(up, rows, q, c, orderField, Desc, Less, limit, offset, batchSize);
    } else {
      r := ExecOrderFieldSelect(up, rows, q, c, orderField, Asc, Greater, limit, offset, batchSize);
    }
  }
}
