/** `DeleteRaw` and `execReserveSize`: many deletes that together remove what one would. The
    table is changed by the database alone, which picks freely among the rows a limited
    delete may take. */
module SqlDelete {
  import opened Options
  import opened SqlWhere
  import opened SqlSelect

  function Not(test: Row -> bool): Row -> bool {
    r => !test(r)
  }

  /** What is left after `n` of the rows that pass were removed. */
  predicate Deleted(was: seq<Row>, now: seq<Row>, test: Row -> bool, n: nat) {
    && n <= |Filter(was, test)|
    && |now| == |was| - n
    && multiset(now) <= multiset(was)
    && Filter(now, Not(test)) == Filter(was, Not(test))
  }

  function DropFirst(rows: seq<Row>, test: Row -> bool, n: nat): seq<Row> {
    if rows == [] || n == 0 then rows
    else if test(rows[0]) then DropFirst(rows[1..], test, n - 1)
    else [rows[0]] + DropFirst(rows[1..], test, n)
  }

  lemma {:induction false} DropFirstDeletes(rows: seq<Row>, test: Row -> bool, n: nat)
    requires n <= |Filter(rows, test)|
    ensures Deleted(rows, DropFirst(rows, test, n), test, n)
  {
    if rows != [] && n > 0 {
      assert rows == [rows[0]] + rows[1..];
      DropFirstDeletes(rows[1..], test, if test(rows[0]) then n - 1 else n);
    }
  }

  lemma {:induction false} FilterSplits(rows: seq<Row>, test: Row -> bool)
    ensures |Filter(rows, test)| + |Filter(rows, Not(test))| == |rows|
    ensures Filter(rows, test) == [] ==> Filter(rows, Not(test)) == rows
  {
    if rows != [] {
      FilterSplits(rows[1..], test);
    }
  }

  /** Removing all that pass leaves no choice. */
  lemma DeletedAll(was: seq<Row>, now: seq<Row>, test: Row -> bool)
    requires Deleted(was, now, test, |Filter(was, test)|)
    ensures now == Filter(was, Not(test))
  {
    FilterSplits(was, test);
    FilterSplits(now, test);
  }

  lemma {:induction false} FilterTwice(rows: seq<Row>, p: Row -> bool, p': Row -> bool)
    ensures Filter(Filter(rows, p), p') == Filter(rows, r => p(r) && p'(r))
  {
    if rows != [] {
      FilterTwice(rows[1..], p, p');
    }
  }

  /** The test for rows that none of the chunks selects. */
  function Missed(q: QueryCond, c: CondText, chunks: seq<seq<seq<int>>>): Row -> bool
    requires |q.fixedCols| == |q.fixedVals| && forall chunk <- chunks :: WellFormed(WhereTokens(q, c, chunk))
  {
    r => Hits(q, c, chunks, r) == 0
  }

  lemma {:induction false} HitsAppend(q: QueryCond, c: CondText, chunks: seq<seq<seq<int>>>, chunk: seq<seq<int>>,
      r: Row)
    requires Parses(q, c, chunks + [chunk])
    ensures Parses(q, c, chunks) && WellFormed(WhereTokens(q, c, chunk))
    ensures Hits(q, c, chunks + [chunk], r) ==
      Hits(q, c, chunks, r) + if Holds(WhereTokens(q, c, chunk), r, true) then 1 else 0
  {
    assert chunk in chunks + [chunk] && forall d <- chunks :: d in chunks + [chunk];
    if chunks == [] {
      assert Hits(q, c, [chunk][1..], r) == 0;
    } else {
      assert (chunks + [chunk])[1..] == chunks[1..] + [chunk];
      HitsAppend(q, c, chunks[1..], chunk, r);
    }
  }

  lemma MissedByMore(rows: seq<Row>, q: QueryCond, c: CondText, chunks: seq<seq<seq<int>>>, chunk: seq<seq<int>>)
    requires Parses(q, c, chunks) && WellFormed(WhereTokens(q, c, chunk))
    ensures Parses(q, c, chunks + [chunk])
    ensures Filter(Filter(rows, Missed(q, c, chunks)), Not(Test(WhereTokens(q, c, chunk)))) ==
      Filter(rows, Missed(q, c, chunks + [chunk]))
  {
    var p, p' := Missed(q, c, chunks), Not(Test(WhereTokens(q, c, chunk)));
    FilterTwice(rows, p, p');
    forall r <- rows
      ensures (p(r) && p'(r)) == Missed(q, c, chunks + [chunk])(r)
    {
      HitsAppend(q, c, chunks, chunk, r);
    }
    FilterSame(rows, r => p(r) && p'(r), Missed(q, c, chunks + [chunk]));
  }

  /** The chunks together miss what the statement with all the IN values misses. */
  lemma MissedByAll(rows: seq<Row>, q: QueryCond, c: CondText, size: nat)
    requires size > 0 && Parses(q, c, Chunks(q.inVals, size))
    ensures WellFormed(WhereTokens(q, c, q.inVals))
    ensures Filter(rows, Missed(q, c, Chunks(q.inVals, size))) == Filter(rows, Not(Test(WhereTokens(q, c, q.inVals))))
  {
    var chunks := Chunks(q.inVals, size);
    ChunksParseWhole(q, c, size);
    forall r <- rows
      ensures Missed(q, c, chunks)(r) == !Holds(WhereTokens(q, c, q.inVals), r, true)
    {
      SomeChunkSelects(q, c, q.inVals, size, r);
    }
    FilterSame(rows, Missed(q, c, chunks), Not(Test(WhereTokens(q, c, q.inVals))));
  }

  function BatchOf(q: QueryCond): (size: nat)
    ensures size > 0
  {
    if q.inBatchSize <= 0 then BATCH_SIZE else q.inBatchSize
  }

  /** What `DeleteRaw` refuses to send. */
  predicate Rejected(q: QueryCond, c: CondText, limit: int) {
    || |q.fixedCols| != |q.fixedVals|
    || (exists i | 0 <= i < |q.inVals| :: |q.inVals[i]| != |q.inCols|)
    || (q.fixedCols == [] && q.inCols == [] && c.Empty?)
    || (|q.inVals| > BatchOf(q) && limit > 0)
  }

  /** IN columns without values are not refused here, and leave no IN part behind: rows are
      selected that no IN list names. */
  lemma EmptyInListIsDropped(q: QueryCond, c: CondText, limit: int, r: Row)
    requires |q.fixedCols| == |q.fixedVals| && q.inCols != [] && q.inVals == []
    requires (q.fixedCols != [] || c.Text?) && (c.Text? ==> WellFormed(c.tokens))
    ensures !Rejected(q, c, limit) && SqlSelect.Refused(q, c, false, limit, 0)
    ensures WellFormed(WhereTokens(q, c, q.inVals))
    ensures Holds(WhereTokens(q, c, q.inVals), r, true) <==>
      if c.Text? then Holds(c.tokens, r, Fixed(q, r)) else Fixed(q, r)
  {
    WhereParses(q, c, q.inVals);
    WhereMeans(q, c, q.inVals, r);
    if c.Text? {
      EarlyHolds(c.tokens, r, Fixed(q, r));
    }
  }

  /** Is the row among the values given for the IN columns? Without such columns any row is. */
  predicate Named(q: QueryCond, r: Row) {
    q.inCols != [] ==> Cells(r, q.inCols) in q.inVals
  }

  /** What the request asks for, clause by clause, except for the IN part. */
  predicate ByOthers(q: QueryCond, c: CondText, r: Row)
    requires |q.fixedCols| == |q.fixedVals| && (c.Text? ==> WellFormed(c.tokens))
  {
    Fixed(q, r) && (c.Text? ==> Holds(c.tokens, r, true))
  }

  /** Every row that a request without a bare `OR` can delete is named by its IN values exactly
      if it has values or needs none, or selects no row at all: the guard that `SelectRaw` has. */
  lemma DeletesOnlyNamedIff(q: QueryCond, c: CondText, limit: int)
    requires !Rejected(q, c, limit) && WellFormed(WhereTokens(q, c, q.inVals)) && OrFree(Tokens(c))
    ensures c.Text? ==> WellFormed(c.tokens)
    ensures (forall r: Row :: Holds(WhereTokens(q, c, q.inVals), r, true) ==> Named(q, r)) <==>
      q.inCols == [] || q.inVals != [] || forall r: Row :: !ByOthers(q, c, r)
  {
    WhereParses(q, c, q.inVals);
    forall r: Row
      ensures Holds(WhereTokens(q, c, q.inVals), r, true) <==>
        ByOthers(q, c, r) && (q.inVals != [] ==> Cells(r, q.inCols) in q.inVals)
    {
      WhereMeansAll(q, c, q.inVals, r);
    }
    if q.inCols != [] && q.inVals == [] {
      forall r: Row
        ensures !Named(q, r) && Holds(WhereTokens(q, c, q.inVals), r, true) == ByOthers(q, c, r)
      {
      }
    }
  }

  function Least(a: int, b: int): int {
    if a < b then a else b
  }

  /** How the query for the key row fares: it fails, the reading of its one row does, or
      neither. */
  datatype KeyAnswer = Failed | Lost | Read

  /** A delete under construction. */
  datatype Builder = Builder(queryCond: QueryCond, cond: CondText, limit: int, reserveField: string, reserveSize: int)

  class Table {
    var rows: seq<Row>
    /** No statement fails for reasons of its own. */
    const up: bool

    constructor (rows: seq<Row>, up: bool)
      ensures this.rows == rows && this.up == up
    {
      this.rows := rows;
      this.up := up;
    }

    /** One statement, with a limit if it is positive. */
    method Statement(tokens: seq<Token>, limit: int) returns (r: Result<nat>)
      modifies this
      ensures r.Err? ==> r.error == Database && rows == old(rows)
      ensures up && WellFormed(tokens) ==> r.Ok?
      ensures r.Ok? ==> WellFormed(tokens) && Deleted(old(rows), rows, Test(tokens), r.value)
      ensures r.Ok? ==>
        var matches := |Filter(old(rows), Test(tokens))|;
        r.value == if limit > 0 then Least(limit, matches) else matches
    {
      var fails := *;
      if (fails && !up) || !WellFormed(tokens) {
        return Err(Database);
      }
      var matches := |Filter(rows, Test(tokens))|;
      var n: nat := if limit > 0 then Least(limit, matches) else matches;
      DropFirstDeletes(rows, Test(tokens), n);
      var left: seq<Row> :| Deleted(rows, left, Test(tokens), n);
      rows := left;
      return Ok(n);
    }

    /** Without a limit exactly the selected rows go, counted once each, however the IN values
        are cut and repeated; an error leaves whole chunks undone. With one, as many of the
        selected rows as it allows. */
    method DeleteRaw(q: QueryCond, c: CondText, limit: int) returns (r: Result<nat>)
      modifies this
      ensures r == Err(BadArguments) <==> Rejected(q, c, limit)
      ensures up && !Rejected(q, c, limit) && WellFormed(WhereTokens(q, c, q.inVals)) ==> r.Ok?
      ensures r.Ok? ==> |q.fixedCols| == |q.fixedVals| && WellFormed(WhereTokens(q, c, q.inVals))
      ensures r.Ok? ==> Deleted(old(rows), rows, Test(WhereTokens(q, c, q.inVals)), r.value)
      ensures r.Ok? && limit <= 0 ==>
        rows == Filter(old(rows), Not(Test(WhereTokens(q, c, q.inVals)))) && r.value == |old(rows)| - |rows|
      ensures r.Ok? && limit > 0 ==> r.value == Least(limit, |Filter(old(rows), Test(WhereTokens(q, c, q.inVals)))|)
      ensures r.Err? && (limit > 0 || r.error == BadArguments) ==> rows == old(rows)
      ensures r == Err(Database) && limit <= 0 ==> PartDone(q, c, old(rows), rows)
    {
      if |q.fixedCols| != |q.fixedVals| {
        return Err(BadArguments);
      }
      for i := 0 to |q.inVals|
        invariant forall j | 0 <= j < i :: |q.inVals[j]| == |q.inCols|
        modifies {}
      {
        if |q.inVals[i]| != |q.inCols| {
          return Err(BadArguments);
        }
      }
      if |q.fixedCols| <= 0 && |q.inCols| <= 0 && c.Empty? {
        return Err(BadArguments);
      }
      var size := q.inBatchSize;
      if size <= 0 {
        size := BATCH_SIZE;
      }
      if |q.inVals| > size && limit > 0 {
        return Err(BadArguments);
      }
      var chunks := MakeChunks(q.inVals, size);
      if limit > 0 {
        r := Statement(WhereTokens(q, c, chunks[0]), limit);
      } else {
        if WellFormed(WhereTokens(q, c, q.inVals)) {
          SomeChunkSelects(q, c, q.inVals, size, map[]);
        }
        r := DeleteChunks(q, c, chunks);
        if r.Ok? {
          ChunksTakeAll(old(rows), q, c, size);
        }
      }
    }

    method DeleteChunks(q: QueryCond, c: CondText, chunks: seq<seq<seq<int>>>) returns (r: Result<nat>)
      requires |q.fixedCols| == |q.fixedVals| && chunks == Chunks(q.inVals, BatchOf(q))
      modifies this
      ensures r.Err? ==> r.error == Database && PartDone(q, c, old(rows), rows)
      ensures up && Parses(q, c, chunks) ==> r.Ok?
      ensures r.Ok? ==>
        Parses(q, c, chunks) && rows == Filter(old(rows), Missed(q, c, chunks)) && r.value == |old(rows)| - |rows|
    {
      var total: nat := 0;
      NothingMissed(old(rows), q, c);
      for i := 0 to |chunks|
        invariant Parses(q, c, chunks[..i])
        invariant rows == Filter(old(rows), Missed(q, c, chunks[..i])) && total == |old(rows)| - |rows|
      {
        ghost var before := rows;
        var affected := Statement(WhereTokens(q, c, chunks[i]), 0);
        if affected.Err? {
          return Err(Database);
        }
        assert chunks[..i + 1] == chunks[..i] + [chunks[i]];
        MissedByMore(old(rows), q, c, chunks[..i], chunks[i]);
        DeletedAll(before, rows, Test(WhereTokens(q, c, chunks[i])));
        total := total + affected.value;
      }
      assert chunks[..|chunks|] == chunks;
      return Ok(total);
    }

    /** Reads the key row. When its reading fails, the rows are at an end all the same. */
    method ReadKey(field: string, reserveSize: int, answer: KeyAnswer) returns (r: Result<Option<int>>)
      ensures r.Err? <==> answer.Failed? || reserveSize < 0
      ensures r.Err? ==> r.error == Database
      ensures r.Ok? ==> r.value.Some? == (answer.Read? && reserveSize < |rows|)
      ensures r.Ok? && r.value.Some? ==> r.value.value == KeyAt(rows, field, reserveSize)
    {
      if answer.Failed? || reserveSize < 0 {
        return Err(Database);
      }
      if answer.Lost? || |rows| <= reserveSize {
        return Ok(None);
      }
      return Ok(Some(KeyAt(rows, field, reserveSize)));
    }

    /** Keeps the rows above the value at place `reserveSize` from the top, and no others, if
        the key row was read; reports success and keeps every row if it was lost. */
    method ExecReserveSize(field: string, reserveSize: int, limit: int, answer: KeyAnswer) returns (r: Result<nat>)
      modifies this
      ensures r.Err? ==> r.error == Database
      ensures up && !answer.Failed? && reserveSize >= 0 ==> r.Ok?
      ensures r.Ok? ==> reserveSize >= 0 && !answer.Failed? && r.value == |old(rows)| - |rows|
      ensures answer.Failed? || reserveSize < 0 ==> r.Err? && rows == old(rows)
      ensures reserveSize >= 0 && (answer.Lost? || (answer.Read? && |old(rows)| <= reserveSize)) ==>
        r == Ok(0) && rows == old(rows)
      ensures answer.Read? && 0 <= reserveSize < |old(rows)| ==>
        var above := Above(field, KeyAt(old(rows), field, reserveSize));
        && Filter(rows, above) == Filter(old(rows), above)
        && multiset(rows) <= multiset(old(rows))
        && (r.Ok? ==> rows == Filter(old(rows), above))
      ensures r.Ok? && Distinct(old(rows), field) ==>
        (|rows| == Least(|old(rows)|, reserveSize) <==> answer.Read? || |old(rows)| <= reserveSize)
    {
      var key := ReadKey(field, reserveSize, answer);
      if key.Err? {
        return Err(Database);
      }
      if key.value.None? {
        return Ok(0);
      }
      r := DeleteUpTo(field, key.value.value, limit);
      if Distinct(old(rows), field) {
        DistinctReservesExactly(old(rows), field, reserveSize);
      }
    }

    /** What a builder executes. With a reserve field it is `ExecReserveSize`, and the
        conditions it was given play no part. */
    method Exec(b: Builder, answer: KeyAnswer) returns (r: Result<nat>)
      modifies this
      ensures b.reserveField == "" ==> (r == Err(BadArguments) <==> Rejected(b.queryCond, b.cond, b.limit))
      ensures b.reserveField == "" && r.Ok? ==> |b.queryCond.fixedCols| == |b.queryCond.fixedVals|
      ensures b.reserveField == "" && r.Ok? ==> WellFormed(WhereTokens(b.queryCond, b.cond, b.queryCond.inVals))
      ensures b.reserveField == "" && r.Ok? ==>
        Deleted(old(rows), rows, Test(WhereTokens(b.queryCond, b.cond, b.queryCond.inVals)), r.value)
      ensures up && b.reserveField == "" && r != Err(BadArguments) ==>
        (WellFormed(WhereTokens(b.queryCond, b.cond, b.queryCond.inVals)) ==> r.Ok?)
      ensures up && b.reserveField != "" && !answer.Failed? && b.reserveSize >= 0 ==> r.Ok?
      ensures b.reserveField != "" ==> r != Err(BadArguments) && (r.Ok? ==> r.value == |old(rows)| - |rows|)
      ensures b.reserveField != "" && answer.Read? && 0 <= b.reserveSize < |old(rows)| && r.Ok? ==>
        rows == Reserved(old(rows), b.reserveField, b.reserveSize)
      ensures b.reserveField != "" && answer.Read? && 0 <= b.reserveSize < |old(rows)| ==>
        var above := Above(b.reserveField, KeyAt(old(rows), b.reserveField, b.reserveSize));
        multiset(rows) <= multiset(old(rows)) && Filter(rows, above) == Filter(old(rows), above)
      ensures b.reserveField != "" && r.Ok? && !(answer.Read? && 0 <= b.reserveSize < |old(rows)|) ==> rows == old(rows)
    {
      if |b.reserveField| <= 0 {
        r := DeleteRaw(b.queryCond, b.cond, b.limit);
      } else {
        r := ExecReserveSize(b.reserveField, b.reserveSize, b.limit, answer);
      }
    }

    method DeleteUpTo(field: string, key: int, limit: int) returns (r: Result<nat>)
      modifies this
      ensures Filter(rows, Above(field, key)) == Filter(old(rows), Above(field, key))
      ensures multiset(rows) <= multiset(old(rows))
      ensures r.Err? ==> r.error == Database
      ensures up ==> r.Ok?
      ensures r.Ok? ==> rows == Filter(old(rows), Above(field, key)) && r.value == |old(rows)| - |rows|
    {
      var total: nat := 0;
      while true
        invariant Filter(rows, Above(field, key)) == Filter(old(rows), Above(field, key))
        invariant multiset(rows) <= multiset(old(rows))
        invariant total == |old(rows)| - |rows|
        decreases |rows|
      {
        var batch := limit;
        if batch <= 0 {
          batch := BATCH_SIZE;
        }
        var c := Where(Empty, [UpTo(field, key)]);
        var q := QueryCond([], [], [], [], 0);
        ghost var before := rows;
        UpToTest(before, q, c, field, key);
        var res := DeleteRaw(q, c, batch);
        if res.Err? {
          return Err(Database);
        }
        UpToTest(rows, q, c, field, key);
        if res.value <= 0 {
          DeletedAll(before, rows, Test(WhereTokens(q, c, [])));
          break;
        }
        total := total + res.value;
      }
      return Ok(total);
    }
  }

  lemma AllDeleted(rows: seq<Row>, test: Row -> bool)
    ensures Deleted(rows, Filter(rows, Not(test)), test, |Filter(rows, test)|)
  {
    DropFirstDeletes(rows, test, |Filter(rows, test)|);
    DeletedAll(rows, DropFirst(rows, test, |Filter(rows, test)|), test);
  }

  /** What all the chunks miss is what one statement with all the values leaves. */
  lemma ChunksTakeAll(rows: seq<Row>, q: QueryCond, c: CondText, size: nat)
    requires size > 0 && Parses(q, c, Chunks(q.inVals, size))
    ensures WellFormed(WhereTokens(q, c, q.inVals))
    ensures var test, left := Test(WhereTokens(q, c, q.inVals)), Filter(rows, Missed(q, c, Chunks(q.inVals, size)));
      left == Filter(rows, Not(test)) && |left| <= |rows| && Deleted(rows, left, test, |rows| - |left|)
  {
    MissedByAll(rows, q, c, size);
    FilterSplits(rows, Test(WhereTokens(q, c, q.inVals)));
    AllDeleted(rows, Test(WhereTokens(q, c, q.inVals)));
  }

  /** Some of the chunks, in order, are done, and the rest is as it was. */
  ghost predicate PartDone(q: QueryCond, c: CondText, was: seq<Row>, now: seq<Row>)
  {
    exists k: nat ::
      var chunks := Chunks(q.inVals, BatchOf(q));
      k < |chunks| && Parses(q, c, chunks[..k]) && now == Filter(was, Missed(q, c, chunks[..k]))
  }

  lemma NothingMissed(rows: seq<Row>, q: QueryCond, c: CondText)
    requires |q.fixedCols| == |q.fixedVals|
    ensures Parses(q, c, []) && Filter(rows, Missed(q, c, [])) == rows
  {
    FilterAll(rows, Missed(q, c, []));
  }

  lemma {:induction false} FilterAll(rows: seq<Row>, test: Row -> bool)
    requires forall r <- rows :: test(r)
    ensures Filter(rows, test) == rows
  {
    if rows != [] {
      assert rows[0] in rows;
      FilterAll(rows[1..], test);
    }
  }

  // Values from the top.

  function Above(field: string, key: int): Row -> bool {
    r => Cell(r, field) > key
  }

  function UpTo(field: string, key: int): Token {
    Atom(r => Cell(r, field) <= key)
  }

  function GreatestAt(rows: seq<Row>, field: string): (k: nat)
    requires rows != []
    ensures k < |rows| && forall r <- rows :: Cell(r, field) <= Cell(rows[k], field)
  {
    if |rows| == 1 then 0
    else
      var k := GreatestAt(rows[1..], field) + 1;
      assert rows == [rows[0]] + rows[1..];
      if Cell(rows[0], field) > Cell(rows[k], field) then 0 else k
  }

  /** All rows but the greatest. */
  function Others(rows: seq<Row>, field: string): (rest: seq<Row>)
    requires rows != []
    ensures |rest| == |rows| - 1
  {
    var k := GreatestAt(rows, field);
    rows[..k] + rows[k + 1..]
  }

  /** `ORDER BY field DESC LIMIT 1 OFFSET n`, the greatest taken away `n` times. */
  function KeyAt(rows: seq<Row>, field: string, n: nat): int
    requires n < |rows|
  {
    if n == 0 then Cell(rows[GreatestAt(rows, field)], field) else KeyAt(Others(rows, field), field, n - 1)
  }

  lemma {:induction false} FilterConcat(a: seq<Row>, b: seq<Row>, test: Row -> bool)
    ensures Filter(a + b, test) == Filter(a, test) + Filter(b, test)
  {
    if a == [] {
      assert a + b == b;
    } else {
      assert (a + b)[1..] == a[1..] + b;
      FilterConcat(a[1..], b, test);
    }
  }

  function CountAbove(rows: seq<Row>, field: string, key: int): nat {
    |Filter(rows, Above(field, key))|
  }

  lemma CountOthers(rows: seq<Row>, field: string, key: int)
    requires rows != []
    ensures CountAbove(rows, field, key) ==
      CountAbove(Others(rows, field), field, key) + if Cell(rows[GreatestAt(rows, field)], field) > key then 1 else 0
  {
    var k, test := GreatestAt(rows, field), Above(field, key);
    assert rows == rows[..k] + ([rows[k]] + rows[k + 1..]);
    FilterConcat(rows[..k], [rows[k]] + rows[k + 1..], test);
    FilterConcat(rows[..k], rows[k + 1..], test);
  }

  /** At most `n` values are greater than the key, and more are when those that equal it
      count as well. */
  predicate AtPlace(rows: seq<Row>, field: string, n: nat, key: int) {
    CountAbove(rows, field, key) <= n < CountAbove(rows, field, key - 1)
  }

  lemma {:induction false} KeyAtPlace(rows: seq<Row>, field: string, n: nat, key: int)
    requires n < |rows| && key == KeyAt(rows, field, n)
    ensures AtPlace(rows, field, n, key)
  {
    if n == 0 {
      TopPlace(rows, field, key);
    } else {
      KeyAtPlace(Others(rows, field), field, n - 1, key);
      KeyAtMost(rows, field, n);
      PlaceBelow(rows, field, key, n);
    }
  }

  lemma TopPlace(rows: seq<Row>, field: string, key: int)
    requires rows != [] && key == Cell(rows[GreatestAt(rows, field)], field)
    ensures AtPlace(rows, field, 0, key)
  {
    NoneAbove(rows, field, key);
    CountOthers(rows, field, key - 1);
  }

  lemma PlaceBelow(rows: seq<Row>, field: string, key: int, n: nat)
    requires 0 < n < |rows| && key <= Cell(rows[GreatestAt(rows, field)], field)
    requires AtPlace(Others(rows, field), field, n - 1, key)
    ensures AtPlace(rows, field, n, key)
  {
    CountOthers(rows, field, key);
    CountOthers(rows, field, key - 1);
  }

  lemma KeyAtMost(rows: seq<Row>, field: string, n: nat)
    requires n < |rows|
    ensures KeyAt(rows, field, n) <= Cell(rows[GreatestAt(rows, field)], field)
  {
    KeyAtIsValue(rows, field, n);
  }

  lemma {:induction false} KeyAtIsValue(rows: seq<Row>, field: string, n: nat)
    requires n < |rows|
    ensures exists r <- rows :: Cell(r, field) == KeyAt(rows, field, n)
  {
    if n > 0 {
      KeyAtIsValue(Others(rows, field), field, n - 1);
      assert forall r <- Others(rows, field) :: r in rows;
    } else {
      assert rows[GreatestAt(rows, field)] in rows;
    }
  }

  lemma {:induction false} NoneAbove(rows: seq<Row>, field: string, key: int)
    requires forall r <- rows :: Cell(r, field) <= key
    ensures CountAbove(rows, field, key) == 0
  {
    if rows != [] {
      assert rows[0] in rows;
      NoneAbove(rows[1..], field, key);
    }
  }

  /** A lower bound lets at least as many rows pass. */
  lemma {:induction false} CountFalls(rows: seq<Row>, field: string, low: int, high: int)
    requires low <= high
    ensures CountAbove(rows, field, high) <= CountAbove(rows, field, low)
  {
    if rows != [] {
      CountFalls(rows[1..], field, low, high);
    }
  }

  /** `execReserveSize` keeps exactly `n` rows if and only if some value parts the `n`
      greatest from the others. */
  lemma ReservesExactlyIff(rows: seq<Row>, field: string, n: nat)
    requires n < |rows|
    ensures CountAbove(rows, field, KeyAt(rows, field, n)) == n <==> exists cut :: CountAbove(rows, field, cut) == n
  {
    var key := KeyAt(rows, field, n);
    KeyAtPlace(rows, field, n, key);
    if cut :| CountAbove(rows, field, cut) == n {
      if cut < key {
        CountFalls(rows, field, cut, key - 1);
      } else {
        CountFalls(rows, field, key, cut);
      }
    }
  }

  predicate Distinct(rows: seq<Row>, field: string) {
    forall i, j | 0 <= i < j < |rows| :: Cell(rows[i], field) != Cell(rows[j], field)
  }

  /** Does the builder's own `WHERE` select the row? */
  predicate Wanted(b: Builder, r: Row)
    requires |b.queryCond.fixedCols| == |b.queryCond.fixedVals|
    requires WellFormed(WhereTokens(b.queryCond, b.cond, b.queryCond.inVals))
  {
    Holds(WhereTokens(b.queryCond, b.cond, b.queryCond.inVals), r, true)
  }

  /** What a delete with a reserve field leaves when its key row was read. */
  function Reserved(rows: seq<Row>, field: string, n: nat): seq<Row>
    requires n < |rows|
  {
    Filter(rows, Above(field, KeyAt(rows, field, n)))
  }

  /** The delete takes no row but those its builder's conditions want. */
  ghost predicate Spares(b: Builder, rows: seq<Row>, n: nat)
    requires |b.queryCond.fixedCols| == |b.queryCond.fixedVals|
    requires WellFormed(WhereTokens(b.queryCond, b.cond, b.queryCond.inVals)) && n < |rows|
  {
    forall r <- rows :: r in Reserved(rows, b.reserveField, n) || Wanted(b, r)
  }

  lemma {:induction false} FilterPasses(rows: seq<Row>, test: Row -> bool, r: Row)
    requires r in Filter(rows, test)
    ensures test(r) && r in rows
  {
    if rows[0] != r || !test(rows[0]) {
      FilterPasses(rows[1..], test, r);
    }
  }

  /** The row and others with values above its own. */
  function Ladder(r: Row, field: string, count: nat): seq<Row> {
    seq(count, i requires 0 <= i < count => if i == 0 then r else r[field := Cell(r, field) + i])
  }

  /** In a table of `n + 1` distinct values the row of the least one goes. */
  lemma LeastGoes(rows: seq<Row>, field: string, n: nat)
    requires |rows| == n + 1 && Distinct(rows, field) && forall r <- rows :: Cell(rows[0], field) <= Cell(r, field)
    ensures rows[0] !in Reserved(rows, field, n)
  {
    var key := KeyAt(rows, field, n);
    DistinctReservesExactly(rows, field, n);
    if rows[0] in Reserved(rows, field, n) {
      FilterPasses(rows, Above(field, key), rows[0]);
      FilterAll(rows, Above(field, key));
    }
  }

  lemma {:induction false} SameForAll(rows: seq<Row>, test: Row -> bool, r: Row)
    requires forall q <- rows :: q == r
    ensures |Filter(rows, test)| == if test(r) then |rows| else 0
  {
    if rows != [] {
      assert rows[0] in rows && forall q <- rows[1..] :: q in rows;
      SameForAll(rows[1..], test, r);
    }
  }

  lemma CopiesGo(r: Row, field: string, n: nat)
    ensures r !in Reserved(seq(n + 1, i => r), field, n)
  {
    var rows := seq(n + 1, i => r);
    var key := KeyAt(rows, field, n);
    KeyAtPlace(rows, field, n, key);
    SameForAll(rows, Above(field, key), r);
  }

  /** With any reserve, the delete spares what its builder's conditions do not want in every
      table exactly if they want every row there can be: if they restrict nothing. */
  lemma SparesUnwantedIff(b: Builder, n: nat)
    requires |b.queryCond.fixedCols| == |b.queryCond.fixedVals|
    requires WellFormed(WhereTokens(b.queryCond, b.cond, b.queryCond.inVals))
    ensures (forall rows: seq<Row> | n < |rows| :: Spares(b, rows, n)) <==> forall r: Row :: Wanted(b, r)
  {
    if r: Row :| !Wanted(b, r) {
      var rows := seq(n + 1, i => r);
      CopiesGo(r, b.reserveField, n);
      assert rows[0] == r && r in rows && !Spares(b, rows, n);
    }
  }

  /** So it is for tables with distinct values. */
  lemma SparesDistinctUnwantedIff(b: Builder, n: nat)
    requires |b.queryCond.fixedCols| == |b.queryCond.fixedVals|
    requires WellFormed(WhereTokens(b.queryCond, b.cond, b.queryCond.inVals))
    ensures (forall rows: seq<Row> | n < |rows| && Distinct(rows, b.reserveField) :: Spares(b, rows, n)) <==>
      forall r: Row :: Wanted(b, r)
  {
    if r: Row :| !Wanted(b, r) {
      var rows := Ladder(r, b.reserveField, n + 1);
      LeastGoes(rows, b.reserveField, n);
      assert rows[0] in rows && !Spares(b, rows, n);
    }
  }

  /** A builder with a fixed column does not spare the rows of other values, unless its
      condition has a bare `OR`. */
  lemma FixedIsNotSpared(b: Builder, n: nat)
    requires |b.queryCond.fixedCols| == |b.queryCond.fixedVals| && b.queryCond.fixedCols != []
    requires WellFormed(WhereTokens(b.queryCond, b.cond, b.queryCond.inVals)) && OrFree(Tokens(b.cond))
    ensures exists rows: seq<Row> | n < |rows| :: !Spares(b, rows, n)
  {
    var r: Row := map[b.queryCond.fixedCols[0] := b.queryCond.fixedVals[0] + 1];
    assert !Fixed(b.queryCond, r);
    WhereMeansAll(b.queryCond, b.cond, b.queryCond.inVals, r);
    assert !Wanted(b, r);
    SparesUnwantedIff(b, n);
  }

  /** `WhereEq("tenant", 5)` with a reserve of one row: the row of tenant 6 goes. */
  method ReserveIgnoresTenant() returns (r: Result<nat>, left: seq<Row>)
    ensures r == Ok(1) && left == [map["id" := 2, "tenant" := 5]]
  {
    var mine, other := map["id" := 2, "tenant" := 5], map["id" := 1, "tenant" := 6];
    var table := new Table([other, mine], true);
    var b := Builder(QueryCond(["tenant"], [5], [], [], 0), Empty, 0, "id", 1);
    assert GreatestAt([other, mine], "id") == 1;
    assert Others([other, mine], "id") == [other];
    assert KeyAt([other, mine], "id", 1) == 1;
    assert Cell(other, "id") == 1 && Cell(mine, "id") == 2;
    assert [other, mine][1..] == [mine] && [mine][1..] == [];
    assert Filter([mine], Above("id", 1)) == [mine] + Filter([], Above("id", 1));
    assert Filter([other, mine], Above("id", 1)) == Filter([mine], Above("id", 1)) == [mine];
    r := table.Exec(b, Read);
    left := table.rows;
  }

  /** Two rows, one to keep, and a connection that breaks while the key row is read: success is
      reported and both rows are kept. */
  method LostKeyKeepsAll() returns (r: Result<nat>, left: nat)
    ensures r == Ok(0) && left == 2
  {
    var table := new Table([map["id" := 1], map["id" := 2]], true);
    r := table.ExecReserveSize("id", 1, 0, Lost);
    left := |table.rows|;
  }

  /** Distinct values always part. */
  lemma DistinctReservesExactly(rows: seq<Row>, field: string, n: nat)
    requires n < |rows| && Distinct(rows, field)
    ensures CountAbove(rows, field, KeyAt(rows, field, n)) == n
  {
    KeyAtPlace(rows, field, n, KeyAt(rows, field, n));
    OneAtMost(rows, field, KeyAt(rows, field, n));
  }

  lemma {:induction false} OneAtMost(rows: seq<Row>, field: string, key: int)
    requires Distinct(rows, field)
    ensures CountAbove(rows, field, key - 1) <= CountAbove(rows, field, key) + 1
  {
    if rows != [] {
      var rest := rows[1..];
      assert forall i | 0 <= i < |rest| :: rest[i] == rows[i + 1];
      OneAtMost(rest, field, key);
      if Cell(rows[0], field) == key {
        SameAbove(rest, field, key);
      }
    }
  }

  lemma {:induction false} SameAbove(rows: seq<Row>, field: string, key: int)
    requires forall r <- rows :: Cell(r, field) != key
    ensures CountAbove(rows, field, key - 1) == CountAbove(rows, field, key)
  {
    if rows != [] {
      assert rows[0] in rows;
      SameAbove(rows[1..], field, key);
    }
  }

  lemma UpToTest(rows: seq<Row>, q: QueryCond, c: CondText, field: string, key: int)
    requires q == QueryCond([], [], [], [], 0) && c == Where(Empty, [UpTo(field, key)])
    ensures WellFormed(WhereTokens(q, c, []))
    ensures Filter(rows, Not(Test(WhereTokens(q, c, [])))) == Filter(rows, Above(field, key))
  {
    assert c.tokens == [UpTo(field, key)];
    assert Parts(q, c, []) == [[UpTo(field, key)]];
    FilterSame(rows, Not(Test(WhereTokens(q, c, []))), Above(field, key));
  }
}
