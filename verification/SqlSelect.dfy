/** `SelectRaw` and `execOrderFieldSelect`: many small queries that together mean one. The
    database is an oracle that answers a query from a fixed list of rows, or fails. */
module SqlSelect {
  import opened Sequences
  import opened SqlWhere

  const BATCH_SIZE: nat := 1024
  const MAX_INT32: nat := 2147483647

  datatype Error = BadArguments | Database

  datatype Result<+T> = Ok(value: T) | Err(error: Error)

  function Filter(rows: seq<Row>, test: Row -> bool): seq<Row> {
    if rows == [] then []
    else if test(rows[0]) then [rows[0]] + Filter(rows[1..], test)
    else Filter(rows[1..], test)
  }

  lemma {:induction false} FilterSame(rows: seq<Row>, p: Row -> bool, p': Row -> bool)
    requires forall r <- rows :: p(r) == p'(r)
    ensures Filter(rows, p) == Filter(rows, p')
  {
    if rows != [] {
      assert rows[0] in rows;
      FilterSame(rows[1..], p, p');
    }
  }

  function Smaller(a: nat, b: nat): nat {
    if a < b then a else b
  }

  /** `LIMIT limit OFFSET offset` of a list of rows. */
  function Page(rows: seq<Row>, offset: nat, limit: nat): seq<Row> {
    rows[Smaller(offset, |rows|)..Smaller(offset + limit, |rows|)]
  }

  /** Two pages in a row are one; after one that is not full nothing follows. */
  lemma PageNext(rows: seq<Row>, offset: nat, a: nat, b: nat)
    ensures Page(rows, offset, a) + Page(rows, offset + a, b) == Page(rows, offset, a + b)
    ensures |Page(rows, offset, a)| < a ==> Page(rows, offset, a + b) == Page(rows, offset, a)
    ensures |Page(rows, offset, a)| <= a
  {
  }

  lemma PageStep(rows: seq<Row>, offset: nat, done: nat, limit: nat, left: nat)
    requires limit <= left
    ensures var page := Page(rows, offset + done, limit);
      && Page(rows, offset, done) + page == Page(rows, offset, done + limit)
      && (|page| < limit ==> Page(rows, offset, done) + page == Page(rows, offset, done + left))
  {
    PageNext(rows, offset, done, limit);
    PageNext(rows, offset + done, limit, left - limit);
    PageNext(rows, offset, done, left);
  }

  /** The test a `WHERE` text makes of a row. */
  function Test(tokens: seq<Token>): Row -> bool
    requires WellFormed(tokens)
  {
    r => Holds(tokens, r, true)
  }

  /** The rows a statement selects when the database lists them as in `rows`. */
  function Selected(rows: seq<Row>, q: QueryCond, c: CondText, chunk: seq<seq<int>>): seq<Row>
    requires |q.fixedCols| == |q.fixedVals| && WellFormed(WhereTokens(q, c, chunk))
  {
    Filter(rows, Test(WhereTokens(q, c, chunk)))
  }

  /** The IN values cut into pieces; without any there is one query all the same. */
  function Chunks(inVals: seq<seq<int>>, size: nat): seq<seq<seq<int>>>
    requires size > 0
    decreases |inVals|
  {
    if |inVals| <= size then [inVals] else [inVals[..size]] + Chunks(inVals[size..], size)
  }

  method MakeChunks(inVals: seq<seq<int>>, size: nat) returns (chunks: seq<seq<seq<int>>>)
    requires size > 0
    ensures chunks == Chunks(inVals, size)
  {
    chunks := [];
    if |inVals| > 0 {
      var start: nat := 0;
      while start < |inVals|
        invariant start < |inVals| ==> chunks + Chunks(inVals[start..], size) == Chunks(inVals, size)
        invariant start >= |inVals| ==> chunks == Chunks(inVals, size)
        decreases |inVals| - start
      {
        var end := start + size;
        if end > |inVals| {
          end := |inVals|;
        }
        ghost var left := inVals[start..];
        if start + size < |inVals| {
          assert left[size..] == inVals[start + size..] && left[..size] == inVals[start..end];
          assert chunks + Chunks(left, size) == chunks + [inVals[start..end]] + Chunks(inVals[start + size..], size);
        } else {
          assert left == inVals[start..end] && Chunks(left, size) == [left];
        }
        chunks := chunks + [inVals[start..end]];
        start := start + size;
      }
    } else {
      chunks := [[]];
    }
  }

  /** One query. Unless the database is up it may fail for reasons of its own, and it fails if
      its text does not parse or a bound is negative. */
  method Query(up: bool, rows: seq<Row>, tokens: seq<Token>, limit: int, offset: int) returns (r: Result<seq<Row>>)
    ensures r.Err? ==> r.error == Database
    ensures up && limit >= 0 && offset >= 0 && WellFormed(tokens) ==> r.Ok?
    ensures r.Ok? ==>
      limit >= 0 && offset >= 0 && WellFormed(tokens) && r.value == Page(Filter(rows, Test(tokens)), offset, limit)
  {
    var fails := *;
    if (fails && !up) || limit < 0 || offset < 0 || !WellFormed(tokens) {
      return Err(Database);
    }
    return Ok(Page(Filter(rows, Test(tokens)), offset, limit));
  }

  /** What `SelectRaw` refuses to send. */
  predicate Refused(q: QueryCond, c: CondText, hasOrder: bool, limit: int, offset: int) {
    || ((hasOrder || limit > 0 || offset > 0) && q.inBatchSize > 0)
    || |q.fixedCols| != |q.fixedVals|
    || (q.inCols != [] && q.inVals == [])
    || (exists i | 0 <= i < |q.inVals| :: |q.inVals[i]| != |q.inCols|)
    || (q.fixedCols == [] && q.inCols == [] && c.Empty?)
  }

  /** It refuses what no database could answer: apart from the user's condition, an accepted
      statement parses, with as many values as columns everywhere; and a statement that it does
      not send for want of a clause or of IN values would not parse, or would lack its IN part. */
  lemma AcceptedParses(q: QueryCond, c: CondText, hasOrder: bool, limit: int, offset: int)
    requires c.Text? ==> WellFormed(c.tokens)
    requires |q.fixedCols| == |q.fixedVals| && forall vals <- q.inVals :: |vals| == |q.inCols|
    requires q.inBatchSize > 0 ==> !hasOrder && limit <= 0 && offset <= 0
    ensures Refused(q, c, hasOrder, limit, offset) <==>
      (q.inCols != [] && q.inVals == []) || (q.inCols == [] && !WellFormed(WhereTokens(q, c, [])))
  {
    WhereParses(q, c, []);
    forall i | 0 <= i < |q.inVals|
      ensures |q.inVals[i]| == |q.inCols|
    {
      assert q.inVals[i] in q.inVals;
    }
  }

  function ChunkSize(q: QueryCond, hasOrder: bool, limit: int, offset: int): (size: nat)
    ensures size > 0
  {
    if q.inBatchSize > 0 then q.inBatchSize
    else if !hasOrder && limit <= 0 && offset <= 0 then BATCH_SIZE
    else MAX_INT32
  }

  function Limit(limit: int): nat {
    if limit <= 0 then MAX_INT32 else limit
  }

  /** One query for each chunk, without any paging. */
  function PerChunk(rows: seq<Row>, q: QueryCond, c: CondText, chunks: seq<seq<seq<int>>>, offset: nat,
      limit: nat): seq<Row>
    requires |q.fixedCols| == |q.fixedVals| && forall chunk <- chunks :: WellFormed(WhereTokens(q, c, chunk))
  {
    if chunks == [] then []
    else Page(Selected(rows, q, c, chunks[0]), offset, limit) + PerChunk(rows, q, c, chunks[1..], offset, limit)
  }

  ghost predicate Parses(q: QueryCond, c: CondText, chunks: seq<seq<seq<int>>>) {
    |q.fixedCols| == |q.fixedVals| && forall chunk <- chunks :: WellFormed(WhereTokens(q, c, chunk))
  }

  lemma ParsesAppend(q: QueryCond, c: CondText, chunks: seq<seq<seq<int>>>, chunk: seq<seq<int>>)
    requires Parses(q, c, chunks + [chunk])
    ensures Parses(q, c, chunks) && WellFormed(WhereTokens(q, c, chunk))
  {
    assert chunk in chunks + [chunk] && forall d <- chunks :: d in chunks + [chunk];
  }

  lemma {:induction false} PerChunkAppend(rows: seq<Row>, q: QueryCond, c: CondText, chunks: seq<seq<seq<int>>>,
      chunk: seq<seq<int>>, offset: nat, limit: nat)
    requires Parses(q, c, chunks + [chunk])
    ensures Parses(q, c, chunks) && WellFormed(WhereTokens(q, c, chunk))
    ensures PerChunk(rows, q, c, chunks + [chunk], offset, limit) ==
      PerChunk(rows, q, c, chunks, offset, limit) + Page(Selected(rows, q, c, chunk), offset, limit)
  {
    ParsesAppend(q, c, chunks, chunk);
    if chunks == [] {
      assert chunks + [chunk] == [chunk];
      assert PerChunk(rows, q, c, [chunk][1..], offset, limit) == [];
    } else {
      assert (chunks + [chunk])[1..] == chunks[1..] + [chunk];
      PerChunkAppend(rows, q, c, chunks[1..], chunk, offset, limit);
    }
  }

  /** The rows of the first `done` places of the page that starts at `offset`. */
  ghost predicate Paged(rows: seq<Row>, tokens: seq<Token>, offset: int, done: nat, result: seq<Row>) {
    if done == 0 then result == []
    else offset >= 0 && WellFormed(tokens) && result == Page(Filter(rows, Test(tokens)), offset, done)
  }

  lemma PagedStep(rows: seq<Row>, tokens: seq<Token>, offset: nat, done: nat, limit: nat, left: nat, result: seq<Row>,
      page: seq<Row>)
    requires WellFormed(tokens) && 0 < limit <= left && Paged(rows, tokens, offset, done, result)
    requires page == Page(Filter(rows, Test(tokens)), offset + done, limit)
    ensures Paged(rows, tokens, offset, done + limit, result + page)
    ensures |page| < limit ==> Paged(rows, tokens, offset, done + left, result + page)
  {
    PageStep(Filter(rows, Test(tokens)), offset, done, limit, left);
  }

  method NextPage(up: bool, rows: seq<Row>, tokens: seq<Token>, size: nat, ghost offset: int, ghost done: nat,
      dataOffset: int, ghost left: nat, ghost result: seq<Row>) returns (r: Result<seq<Row>>)
    requires 0 < size <= left && dataOffset == offset + done && Paged(rows, tokens, offset, done, result)
    ensures r.Err? ==> r.error == Database
    ensures up && offset >= 0 && WellFormed(tokens) ==> r.Ok?
    ensures r.Ok? ==> offset >= 0 && WellFormed(tokens) && Paged(rows, tokens, offset, done + size, result + r.value)
    ensures r.Ok? && |r.value| < size ==> Paged(rows, tokens, offset, done + left, result + r.value)
  {
    r := Query(up, rows, tokens, size, dataOffset);
    if r.Ok? {
      PagedStep(rows, tokens, offset, done, size, left, result, r.value);
    }
  }

  /** The pages of one chunk: the same rows as one query, for any size of page. */
  method SelectChunk(up: bool, rows: seq<Row>, q: QueryCond, c: CondText, chunk: seq<seq<int>>, limit: nat, offset: int,
      batchSize: nat) returns (r: Result<seq<Row>>)
    requires |q.fixedCols| == |q.fixedVals| && batchSize > 0 && limit > 0
    ensures r.Err? ==> r.error == Database
    ensures up && offset >= 0 && WellFormed(WhereTokens(q, c, chunk)) ==> r.Ok?
    ensures r.Ok? ==>
      offset >= 0 && WellFormed(WhereTokens(q, c, chunk)) && r.value == Page(Selected(rows, q, c, chunk), offset, limit)
  {
    var tokens := WhereTokens(q, c, chunk);
    var dataOffset, dataLimit := offset, limit;
    var result: seq<Row> := [];
    while dataLimit > 0
      invariant 0 <= dataLimit <= limit && dataOffset == offset + (limit - dataLimit)
      invariant Paged(rows, tokens, offset, limit - dataLimit, result)
    {
      var minLimit := if dataLimit < batchSize then dataLimit else batchSize;
      var page := NextPage(up, rows, tokens, minLimit, offset, limit - dataLimit, dataOffset, dataLimit, result);
      if page.Err? {
        return Err(Database);
      }
      result := result + page.value;
      if |page.value| < minLimit {
        return Ok(result);
      }
      dataOffset := dataOffset + minLimit;
      dataLimit := dataLimit - minLimit;
    }
    return Ok(result);
  }

  /** What is asked for without an order, a limit and an offset, cut into chunks of the size
      given, or else of 1024: every row as often as chunks select it, which is as the one
      statement with all the values does if these differ and no bare `OR` lets rows past them.
      With one of the three, and all the values in one statement: the rows of that statement
      from the offset on, as many as the limit says. */
  ghost predicate Answers(rows: seq<Row>, q: QueryCond, c: CondText, hasOrder: bool, limit: int, offset: nat,
      result: seq<Row>)
    requires |q.fixedCols| == |q.fixedVals| && WellFormed(WhereTokens(q, c, q.inVals))
  {
    if hasOrder || limit > 0 || offset > 0 then
      |q.inVals| <= 2147483647 ==>
        result == Page(Selected(rows, q, c, q.inVals), offset, if limit > 0 then limit else 2147483647)
    else
      var chunks := Chunks(q.inVals, if q.inBatchSize > 0 then q.inBatchSize else 1024);
      && Parses(q, c, chunks)
      && (NoneCut(rows, q, c, chunks, 2147483647) ==>
            && (forall r: Row :: FoundByHits(rows, q, c, chunks, result, r))
            && (OrFree(Tokens(c)) && Different(q.inVals) ==>
                  multiset(result) == multiset(Selected(rows, q, c, q.inVals))))
  }

  ghost predicate FoundByHits(rows: seq<Row>, q: QueryCond, c: CondText, chunks: seq<seq<seq<int>>>, result: seq<Row>,
      r: Row)
    requires Parses(q, c, chunks)
  {
    multiset(result)[r] == Hits(q, c, chunks, r) * multiset(rows)[r]
  }

  ghost predicate Different<T>(items: seq<T>) {
    forall i, j | 0 <= i < j < |items| :: items[i] != items[j]
  }

  lemma PerChunkAnswers(rows: seq<Row>, q: QueryCond, c: CondText, hasOrder: bool, limit: int, offset: nat)
    requires !Refused(q, c, hasOrder, limit, offset)
    requires Parses(q, c, Chunks(q.inVals, ChunkSize(q, hasOrder, limit, offset)))
    ensures WellFormed(WhereTokens(q, c, q.inVals))
    ensures Answers(rows, q, c, hasOrder, limit, offset,
      PerChunk(rows, q, c, Chunks(q.inVals, ChunkSize(q, hasOrder, limit, offset)), offset, Limit(limit)))
  {
    var chunks := Chunks(q.inVals, ChunkSize(q, hasOrder, limit, offset));
    ChunksParseWhole(q, c, ChunkSize(q, hasOrder, limit, offset));
    if hasOrder || limit > 0 || offset > 0 {
      if |q.inVals| <= 2147483647 {
        assert chunks == [q.inVals] && PerChunk(rows, q, c, chunks[1..], offset, Limit(limit)) == [];
      }
    } else if NoneCut(rows, q, c, chunks, 2147483647) {
      forall r: Row
        ensures FoundByHits(rows, q, c, chunks, PerChunk(rows, q, c, chunks, 0, 2147483647), r)
      {
        PerChunkCount(rows, q, c, chunks, 2147483647, r);
        TimesIsProduct(Hits(q, c, chunks, r), multiset(rows)[r]);
      }
      if OrFree(Tokens(c)) && Different(q.inVals) {
        DistinctTuplesChunkFreely(rows, q, c, ChunkSize(q, hasOrder, limit, offset), 2147483647);
      }
    }
  }

  /** If the statements of the chunks parse, so does the one with all the values. */
  lemma ChunksParseWhole(q: QueryCond, c: CondText, size: nat)
    requires size > 0 && Parses(q, c, Chunks(q.inVals, size))
    ensures WellFormed(WhereTokens(q, c, q.inVals))
  {
    var chunks := Chunks(q.inVals, size);
    assert chunks[0] in chunks;
    WhereParses(q, c, chunks[0]);
    WhereParses(q, c, q.inVals);
  }

  /** However large the pages, `SelectRaw` answers with one query for each chunk. */
  method SelectRaw(up: bool, rows: seq<Row>, q: QueryCond, c: CondText, hasOrder: bool, limit: int, offset: int,
      batchSize: int) returns (r: Result<seq<Row>>)
    ensures r == Err(BadArguments) <==> Refused(q, c, hasOrder, limit, offset)
    ensures up && !Refused(q, c, hasOrder, limit, offset) && offset >= 0 ==>
      (WellFormed(WhereTokens(q, c, q.inVals)) ==> r.Ok?)
    ensures r.Ok? ==> offset >= 0 && |q.fixedCols| == |q.fixedVals| && WellFormed(WhereTokens(q, c, q.inVals))
    ensures r.Ok? ==> Answers(rows, q, c, hasOrder, limit, offset, r.value)
    ensures r.Ok? ==> Parses(q, c, Chunks(q.inVals, ChunkSize(q, hasOrder, limit, offset)))
    ensures r.Ok? ==>
      r.value == PerChunk(rows, q, c, Chunks(q.inVals, ChunkSize(q, hasOrder, limit, offset)), offset, Limit(limit))
  {
    var inBatchSize := q.inBatchSize;
    if hasOrder || limit > 0 || offset > 0 {
      if inBatchSize > 0 {
        return Err(BadArguments);
      }
    }
    if !hasOrder && limit <= 0 && offset <= 0 {
      if inBatchSize <= 0 {
        inBatchSize := BATCH_SIZE;
      }
    }
    if inBatchSize <= 0 {
      inBatchSize := MAX_INT32;
    }
    var rowLimit := limit;
    if rowLimit <= 0 {
      rowLimit := MAX_INT32;
    }
    var pageSize := batchSize;
    if pageSize <= 0 {
      pageSize := BATCH_SIZE;
    }
    var fine := Check(q, c);
    if !fine {
      return Err(BadArguments);
    }
    var chunks := MakeChunks(q.inVals, inBatchSize);
    ChunksExist(q.inVals, inBatchSize);
    if WellFormed(WhereTokens(q, c, q.inVals)) {
      SomeChunkSelects(q, c, q.inVals, inBatchSize, map[]);
    }
    r := SelectChunks(up, rows, q, c, chunks, rowLimit, offset, pageSize);
    if r.Ok? {
      PerChunkAnswers(rows, q, c, hasOrder, limit, offset);
    }
  }

  method Check(q: QueryCond, c: CondText) returns (fine: bool)
    ensures fine == !Refused(q, c, false, 0, 0)
  {
    if |q.fixedCols| != |q.fixedVals| {
      return false;
    }
    if |q.inCols| > 0 {
      if |q.inVals| == 0 {
        return false;
      } else if |q.inCols| != |q.inVals[0]| {
        return false;
      }
    }
    for i := 0 to |q.inVals|
      invariant forall j | 0 <= j < i :: |q.inVals[j]| == |q.inCols|
    {
      if |q.inVals[i]| != |q.inCols| {
        return false;
      }
    }
    return !(|q.fixedCols| <= 0 && |q.inCols| <= 0 && c.Empty?);
  }

  lemma ChunksExist(inVals: seq<seq<int>>, size: nat)
    requires size > 0
    ensures Chunks(inVals, size) != []
  {
  }

  method SelectChunks(up: bool, rows: seq<Row>, q: QueryCond, c: CondText, chunks: seq<seq<seq<int>>>, limit: nat,
      offset: int,
      batchSize: nat) returns (r: Result<seq<Row>>)
    requires |q.fixedCols| == |q.fixedVals| && batchSize > 0 && limit > 0 && chunks != []
    ensures r.Err? ==> r.error == Database
    ensures up && offset >= 0 && Parses(q, c, chunks) ==> r.Ok?
    ensures r.Ok? ==> offset >= 0 && Parses(q, c, chunks) && r.value == PerChunk(rows, q, c, chunks, offset, limit)
  {
    var result: seq<Row> := [];
    for i := 0 to |chunks|
      invariant Answered(rows, q, c, chunks[..i], offset, limit, result)
    {
      var part := SelectChunk(up, rows, q, c, chunks[i], limit, offset, batchSize);
      if part.Err? {
        return Err(Database);
      }
      AnsweredMore(rows, q, c, chunks[..i], chunks[i], offset, limit, result, part.value);
      assert chunks[..i + 1] == chunks[..i] + [chunks[i]];
      result := result + part.value;
    }
    assert chunks[..|chunks|] == chunks;
    return Ok(result);
  }

  /** The answer to the chunks so far; the offset is known to be fit once there is one. */
  ghost predicate Answered(rows: seq<Row>, q: QueryCond, c: CondText, done: seq<seq<seq<int>>>, offset: int, limit: nat,
      result: seq<Row>) {
    if done == [] then result == []
    else offset >= 0 && Parses(q, c, done) && result == PerChunk(rows, q, c, done, offset, limit)
  }

  lemma AnsweredMore(rows: seq<Row>, q: QueryCond, c: CondText, done: seq<seq<seq<int>>>, chunk: seq<seq<int>>,
      offset: nat, limit: nat, result: seq<Row>, part: seq<Row>)
    requires Answered(rows, q, c, done, offset, limit, result)
    requires |q.fixedCols| == |q.fixedVals| && WellFormed(WhereTokens(q, c, chunk))
    requires part == Page(Selected(rows, q, c, chunk), offset, limit)
    ensures Answered(rows, q, c, done + [chunk], offset, limit, result + part)
  {
    assert Parses(q, c, done + [chunk]);
    PerChunkAppend(rows, q, c, done, chunk, offset, limit);
  }

  // Chunks against one query with all the IN values.

  lemma {:induction false} FilterCount(rows: seq<Row>, test: Row -> bool, r: Row)
    ensures multiset(Filter(rows, test))[r] == if test(r) then multiset(rows)[r] else 0
  {
    if rows != [] {
      assert rows == [rows[0]] + rows[1..];
      FilterCount(rows[1..], test, r);
    }
  }

  /** How many of the chunks' statements select the row. */
  function Hits(q: QueryCond, c: CondText, chunks: seq<seq<seq<int>>>, r: Row): nat
    requires |q.fixedCols| == |q.fixedVals| && forall chunk <- chunks :: WellFormed(WhereTokens(q, c, chunk))
  {
    if chunks == [] then 0
    else (if Holds(WhereTokens(q, c, chunks[0]), r, true) then 1 else 0) + Hits(q, c, chunks[1..], r)
  }

  /** No chunk selects more than a page may hold. */
  ghost predicate NoneCut(rows: seq<Row>, q: QueryCond, c: CondText, chunks: seq<seq<seq<int>>>, limit: nat)
    requires Parses(q, c, chunks)
  {
    forall chunk <- chunks :: |Selected(rows, q, c, chunk)| <= limit
  }

  lemma ChunkCount(rows: seq<Row>, q: QueryCond, c: CondText, chunk: seq<seq<int>>, limit: nat, r: Row)
    requires |q.fixedCols| == |q.fixedVals| && WellFormed(WhereTokens(q, c, chunk))
    requires |Selected(rows, q, c, chunk)| <= limit
    ensures multiset(Page(Selected(rows, q, c, chunk), 0, limit))[r] ==
      (if Holds(WhereTokens(q, c, chunk), r, true) then multiset(rows)[r] else 0)
  {
    FilterCount(rows, Test(WhereTokens(q, c, chunk)), r);
    assert Page(Selected(rows, q, c, chunk), 0, limit) == Selected(rows, q, c, chunk);
  }

  /** Every hit adds all copies of the row. */
  lemma {:induction false} PerChunkCount(rows: seq<Row>, q: QueryCond, c: CondText, chunks: seq<seq<seq<int>>>,
      limit: nat, r: Row)
    requires Parses(q, c, chunks) && NoneCut(rows, q, c, chunks, limit)
    ensures multiset(PerChunk(rows, q, c, chunks, 0, limit))[r] == Times(Hits(q, c, chunks, r), multiset(rows)[r])
  {
    if chunks != [] {
      RestIsFine(rows, q, c, chunks, limit);
      ChunkCount(rows, q, c, chunks[0], limit, r);
      PerChunkCount(rows, q, c, chunks[1..], limit, r);
      var first, rest := Page(Selected(rows, q, c, chunks[0]), 0, limit), PerChunk(rows, q, c, chunks[1..], 0, limit);
      assert PerChunk(rows, q, c, chunks, 0, limit) == first + rest;
      JoinCount(first, rest, r);
      var hits := Hits(q, c, chunks[1..], r);
      assert Hits(q, c, chunks, r) == if Holds(WhereTokens(q, c, chunks[0]), r, true) then hits + 1 else hits;
      TimesMore(hits, multiset(rows)[r]);
    }
  }

  lemma RestIsFine(rows: seq<Row>, q: QueryCond, c: CondText, chunks: seq<seq<seq<int>>>, limit: nat)
    requires chunks != [] && Parses(q, c, chunks) && NoneCut(rows, q, c, chunks, limit)
    ensures WellFormed(WhereTokens(q, c, chunks[0])) && |Selected(rows, q, c, chunks[0])| <= limit
    ensures Parses(q, c, chunks[1..]) && NoneCut(rows, q, c, chunks[1..], limit)
  {
    assert chunks[0] in chunks && forall d <- chunks[1..] :: d in chunks;
  }

  lemma TimesMore(hits: nat, copies: nat)
    ensures Times(hits + 1, copies) == copies + Times(hits, copies)
  {
  }

  function Times(hits: nat, copies: nat): nat {
    if hits == 0 then 0 else copies + Times(hits - 1, copies)
  }

  lemma {:induction false} TimesIsProduct(hits: nat, copies: nat)
    ensures Times(hits, copies) == hits * copies
    ensures hits > 1 && copies > 0 ==> Times(hits, copies) > copies
  {
    if hits > 0 {
      TimesIsProduct(hits - 1, copies);
    }
  }

  lemma JoinCount(a: seq<Row>, b: seq<Row>, r: Row)
    ensures multiset(a + b)[r] == multiset(a)[r] + multiset(b)[r]
  {
  }

  /** The IN part widens what is selected tuple by tuple. */
  lemma InPartWidens(q: QueryCond, c: CondText, a: seq<seq<int>>, b: seq<seq<int>>, r: Row)
    requires |q.fixedCols| == |q.fixedVals| && a != [] && b != [] && WellFormed(WhereTokens(q, c, a + b))
    ensures WellFormed(WhereTokens(q, c, a)) && WellFormed(WhereTokens(q, c, b))
    ensures Holds(WhereTokens(q, c, a + b), r, true) <==>
      Holds(WhereTokens(q, c, a), r, true) || Holds(WhereTokens(q, c, b), r, true)
  {
    WhereParses(q, c, a + b);
    WhereParses(q, c, a);
    WhereParses(q, c, b);
    InPartSplits(q, c, a, r);
    InPartSplits(q, c, b, r);
    InPartSplits(q, c, a + b, r);
  }

  lemma InPartSplits(q: QueryCond, c: CondText, chunk: seq<seq<int>>, r: Row)
    requires |q.fixedCols| == |q.fixedVals| && chunk != [] && WellFormed(WhereTokens(q, c, chunk))
    ensures q.fixedCols == [] && c.Empty? ==> Holds(WhereTokens(q, c, chunk), r, true) == (Cells(r, q.inCols) in chunk)
    ensures q.fixedCols != [] || c.Text? ==>
      && WellFormed(WhereTokens(q, c, []))
      && var rest := WhereTokens(q, c, []);
         Holds(WhereTokens(q, c, chunk), r, true) ==
           (Early(rest, r, true) || (Holds(rest, r, true) && Cells(r, q.inCols) in chunk))
  {
    var rest := Parts(q, c, []);
    WhereParses(q, c, chunk);
    assert Parts(q, c, chunk) == rest + [InPart(q.inCols, chunk)];
    if |rest| > 0 {
      WhereParses(q, c, []);
      JoinSepAppend(rest, InPart(q.inCols, chunk), [And]);
      AndBindsToLast(WhereTokens(q, c, []), InPart(q.inCols, chunk), r, true);
    }
  }

  /** The chunks parse if the statement with all the values does, and what it selects is
      what any of them selects. */
  lemma {:induction false} SomeChunkSelects(q: QueryCond, c: CondText, inVals: seq<seq<int>>, size: nat, r: Row)
    requires size > 0 && |q.fixedCols| == |q.fixedVals| && WellFormed(WhereTokens(q, c, inVals))
    ensures Parses(q, c, Chunks(inVals, size))
    ensures Holds(WhereTokens(q, c, inVals), r, true) <==> Hits(q, c, Chunks(inVals, size), r) > 0
    decreases |inVals|
  {
    if |inVals| <= size {
      assert Hits(q, c, [inVals][1..], r) == 0;
    } else {
      assert inVals == inVals[..size] + inVals[size..];
      InPartWidens(q, c, inVals[..size], inVals[size..], r);
      SomeChunkSelects(q, c, inVals[size..], size, r);
      var chunks := Chunks(inVals, size);
      assert chunks[0] == inVals[..size] && chunks[1..] == Chunks(inVals[size..], size);
    }
  }

  lemma RowCounts(rows: seq<Row>, q: QueryCond, c: CondText, size: nat, limit: nat, r: Row)
    requires size > 0 && |q.fixedCols| == |q.fixedVals| && WellFormed(WhereTokens(q, c, q.inVals))
    requires Parses(q, c, Chunks(q.inVals, size)) && NoneCut(rows, q, c, Chunks(q.inVals, size), limit)
    ensures (r !in rows || Hits(q, c, Chunks(q.inVals, size), r) <= 1) <==>
      multiset(PerChunk(rows, q, c, Chunks(q.inVals, size), 0, limit))[r] ==
      multiset(Selected(rows, q, c, q.inVals))[r]
  {
    SomeChunkSelects(q, c, q.inVals, size, r);
    PerChunkCount(rows, q, c, Chunks(q.inVals, size), limit, r);
    FilterCount(rows, Test(WhereTokens(q, c, q.inVals)), r);
    TimesIsProduct(Hits(q, c, Chunks(q.inVals, size), r), multiset(rows)[r]);
  }

  /** Cut into chunks, the answer is that of one statement (in some order) exactly if no row
      is selected by two of the chunks. */
  lemma ChunkedIsWhole(rows: seq<Row>, q: QueryCond, c: CondText, size: nat, limit: nat)
    requires size > 0 && |q.fixedCols| == |q.fixedVals| && WellFormed(WhereTokens(q, c, q.inVals))
    requires Parses(q, c, Chunks(q.inVals, size)) ==> NoneCut(rows, q, c, Chunks(q.inVals, size), limit)
    ensures Parses(q, c, Chunks(q.inVals, size))
    ensures multiset(PerChunk(rows, q, c, Chunks(q.inVals, size), 0, limit)) ==
      multiset(Selected(rows, q, c, q.inVals)) <==>
      forall r <- rows :: Hits(q, c, Chunks(q.inVals, size), r) <= 1
  {
    var chunks := Chunks(q.inVals, size);
    SomeChunkSelects(q, c, q.inVals, size, map[]);
    var parts, whole := multiset(PerChunk(rows, q, c, chunks, 0, limit)), multiset(Selected(rows, q, c, q.inVals));
    forall r: Row
      ensures parts[r] == whole[r] <==> r !in rows || Hits(q, c, chunks, r) <= 1
    {
      RowCounts(rows, q, c, size, limit, r);
    }
    if forall r <- rows :: Hits(q, c, chunks, r) <= 1 {
      assert parts == whole;
    }
  }

  /** A row is selected no more often than its tuple is listed, unless a bare `OR` lets it
      past the IN part. */
  lemma {:induction false} HitsAtMostListed(q: QueryCond, c: CondText, inVals: seq<seq<int>>, size: nat, r: Row)
    requires size > 0 && inVals != [] && |q.fixedCols| == |q.fixedVals|
    requires WellFormed(WhereTokens(q, c, inVals)) && OrFree(Tokens(c))
    ensures Parses(q, c, Chunks(inVals, size))
    ensures Hits(q, c, Chunks(inVals, size), r) <= multiset(inVals)[Cells(r, q.inCols)]
    decreases |inVals|
  {
    if |inVals| <= size {
      WhereMeansAll(q, c, inVals, r);
      assert Hits(q, c, [inVals][1..], r) == 0;
    } else {
      var a, b := inVals[..size], inVals[size..];
      assert inVals == a + b;
      InPartWidens(q, c, a, b, r);
      WhereMeansAll(q, c, a, r);
      HitsAtMostListed(q, c, b, size, r);
      var chunks := Chunks(inVals, size);
      assert chunks[0] == a && chunks[1..] == Chunks(b, size);
    }
  }

  /** With distinct tuples and no bare `OR`, chunking never shows. */
  lemma DistinctTuplesChunkFreely(rows: seq<Row>, q: QueryCond, c: CondText, size: nat, limit: nat)
    requires size > 0 && |q.fixedCols| == |q.fixedVals| && WellFormed(WhereTokens(q, c, q.inVals)) && OrFree(Tokens(c))
    requires Parses(q, c, Chunks(q.inVals, size)) ==> NoneCut(rows, q, c, Chunks(q.inVals, size), limit)
    requires Different(q.inVals)
    ensures Parses(q, c, Chunks(q.inVals, size))
    ensures multiset(PerChunk(rows, q, c, Chunks(q.inVals, size), 0, limit)) == multiset(Selected(rows, q, c, q.inVals))
  {
    ChunkedIsWhole(rows, q, c, size, limit);
    forall r <- rows
      ensures Hits(q, c, Chunks(q.inVals, size), r) <= 1
    {
      if q.inVals != [] {
        HitsAtMostListed(q, c, q.inVals, size, r);
        ListedOnce(q.inVals, Cells(r, q.inCols));
      } else {
        assert Hits(q, c, [q.inVals][1..], r) == 0;
      }
    }
  }

  lemma {:induction false} ListedOnce<T>(items: seq<T>, x: T)
    requires Different(items)
    ensures multiset(items)[x] <= 1
  {
    if items != [] {
      assert items == [items[0]] + items[1..];
      ListedOnce(items[1..], x);
    }
  }
}
