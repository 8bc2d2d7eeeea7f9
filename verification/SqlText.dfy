/** The text of a `SELECT` or `DELETE`, and which value each of its placeholders gets. */
module SqlText {
  import opened Sequences

  /** The order of the clauses of a `WHERE` part, and which of them are there: the fixed
      conditions, the user's condition, the IN part. */
  function Present<T>(hasFixed: bool, fixed: T, hasCond: bool, cond: T, hasIn: bool, inPart: T): seq<T> {
    (if hasFixed then [fixed] else []) + (if hasCond then [cond] else []) + (if hasIn then [inPart] else [])
  }

  function Clauses(fixedConds: seq<string>, cond: string, inCols: seq<string>, tuples: seq<string>): seq<string> {
    Present(fixedConds != [], JoinSep(fixedConds, " AND "), cond != "", cond, tuples != [], InClause(inCols, tuples))
  }

  function InClause(inCols: seq<string>, tuples: seq<string>): string {
    "(" + JoinSep(inCols, ", ") + ") IN (" + JoinSep(tuples, ",") + ")"
  }

  function WithSpaces(sqls: seq<string>): string {
    if sqls == [] then "" else sqls[0] + " " + WithSpaces(sqls[1..])
  }

  function Tail(order: string, limit: string): string {
    (if order != "" then " " + order else "") + (if limit != "" then " " + limit else "")
  }

  function QueryText(sqls: seq<string>, table: string, join: string, clauses: seq<string>, order: string,
      limit: string): string {
    WithSpaces(sqls) + table + " " + join + " WHERE" +
    (if clauses == [] then "" else " " + JoinSep(clauses, " AND ")) +
    Tail(order, limit)
  }

  lemma {:induction false} WithSpacesAppend(sqls: seq<string>, sql: string)
    ensures WithSpaces(sqls + [sql]) == WithSpaces(sqls) + sql + " "
  {
    if sqls == [] {
      assert WithSpaces([sql]) == sql + " " + WithSpaces([]);
    } else {
      assert (sqls + [sql])[1..] == sqls[1..] + [sql];
      WithSpacesAppend(sqls[1..], sql);
    }
  }

  /** Writing the parts one by one, with the separator before all but the first. */
  method WriteJoined(b: string, parts: seq<string>, sep: string) returns (b': string)
    ensures b' == b + JoinSep(parts, sep)
  {
    b' := b;
    for i := 0 to |parts|
      invariant b' == b + JoinSep(parts[..i], sep)
    {
      assert parts[..i + 1] == parts[..i] + [parts[i]];
      if i > 0 {
        JoinSepAppend(parts[..i], parts[i], sep);
        b' := b' + sep;
      }
      b' := b' + parts[i];
    }
    assert parts[..|parts|] == parts;
  }

  /** The string builder with its `isFirstAdd` flag writes the clauses joined by `AND`. */
  method BuildQuery(sqls: seq<string>, table: string, join: string, fixedConds: seq<string>, cond: string,
      inCols: seq<string>, tuples: seq<string>, order: string, limit: string) returns (b: string)
    ensures b == QueryText(sqls, table, join, Clauses(fixedConds, cond, inCols, tuples), order, limit)
  {
    b := "";
    for i := 0 to |sqls|
      invariant b == WithSpaces(sqls[..i])
    {
      assert sqls[..i + 1] == sqls[..i] + [sqls[i]];
      WithSpacesAppend(sqls[..i], sqls[i]);
      b := b + sqls[i] + " ";
    }
    assert sqls[..|sqls|] == sqls;
    b := WriteWhere(b + table + " " + join + " WHERE", fixedConds, cond, inCols, tuples);
    if |order| > 0 {
      b := b + " " + order;
    }
    if |limit| > 0 {
      b := b + " " + limit;
    }
  }

  method WriteWhere(head: string, fixedConds: seq<string>, cond: string, inCols: seq<string>,
      tuples: seq<string>) returns (b: string)
    ensures b == Written(head, Clauses(fixedConds, cond, inCols, tuples))
  {
    b := head;
    var isFirstAdd := true;
    ghost var done := [];
    if |fixedConds| > 0 {
      AddClause(head, done, JoinSep(fixedConds, " AND "));
      b, isFirstAdd := WriteAnd(b, isFirstAdd);
      b := WriteJoined(b, fixedConds, " AND ");
      done := [JoinSep(fixedConds, " AND ")];
    }
    assert b == Written(head, done) && isFirstAdd == (done == []);
    b, isFirstAdd := WriteRest(head, done, b, isFirstAdd, cond, inCols, tuples);
  }

  method WriteRest(ghost head: string, ghost done: seq<string>, before: string, first: bool, cond: string,
      inCols: seq<string>, tuples: seq<string>) returns (b: string, isFirstAdd: bool)
    requires before == Written(head, done) && first == (done == [])
    ensures var conds := if cond != "" then [cond] else [];
      var ins := if tuples != [] then [InClause(inCols, tuples)] else [];
      b == Written(head, done + conds + ins)
  {
    b, isFirstAdd := before, first;
    ghost var done' := done;
    if |cond| > 0 {
      AddClause(head, done, cond);
      b, isFirstAdd := WriteAnd(b, isFirstAdd);
      b := b + cond;
      done' := done + [cond];
    }
    assert done' == done + if cond != "" then [cond] else [];
    assert b == Written(head, done' + []) && isFirstAdd == (done' == []) by {
      assert done' + [] == done';
    }
    if |tuples| > 0 {
      AddClause(head, done', InClause(inCols, tuples));
      b, isFirstAdd := WriteAnd(b, isFirstAdd);
      b := WriteIn(b, inCols, tuples);
    }
  }

  method WriteIn(b: string, inCols: seq<string>, tuples: seq<string>) returns (b': string)
    ensures b' == b + InClause(inCols, tuples)
  {
    b' := b + "(";
    b' := WriteJoined(b', inCols, ", ");
    b' := b' + ") IN (";
    b' := WriteJoined(b', tuples, ",");
    b' := b' + ")";
  }

  method WriteAnd(b: string, isFirstAdd: bool) returns (b': string, isFirst': bool)
    ensures b' == b + (if isFirstAdd then " " else " AND ") && !isFirst'
  {
    b' := b + if isFirstAdd then " " else " AND ";
    isFirst' := false;
  }

  /** The `WHERE` part as written so far. */
  function Written(head: string, done: seq<string>): string {
    head + if done == [] then "" else " " + JoinSep(done, " AND ")
  }

  lemma AddClause(head: string, done: seq<string>, clause: string)
    ensures Written(head, done + [clause]) == Written(head, done) + (if done == [] then " " else " AND ") + clause
  {
    if done != [] {
      JoinSepAppend(done, clause, " AND ");
    }
  }
}
