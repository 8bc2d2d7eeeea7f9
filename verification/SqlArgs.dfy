/** The statements `SelectRaw` and `DeleteRaw` send, and the proof that every value lands
    in the clause it was given for. */
module SqlArgs {
  import opened Sequences
  import opened SqlText

  /** A statement with its arguments in place: plain characters and bound values. */
  datatype Sym<+V> = Char(c: char) | Val(v: V)

  /** The driver's reading: each `?` in turn takes the next argument. */
  function Bind<V>(s: string, args: seq<V>): seq<Sym<V>> {
    if s == "" then []
    else if s[0] == '?' && args != [] then [Val(args[0])] + Bind(s[1..], args[1..])
    else [Char(s[0])] + Bind(s[1..], args)
  }

  function Chars<V>(s: string): seq<Sym<V>> {
    seq(|s|, i requires 0 <= i < |s| => Char(s[i]))
  }

  /** How many placeholders a text has. */
  function Slots(s: string): nat {
    if s == "" then 0 else (if s[0] == '?' then 1 else 0) + Slots(s[1..])
  }

  lemma {:induction false} SlotsConcat(s: string, t: string)
    ensures Slots(s + t) == Slots(s) + Slots(t)
  {
    if s == "" {
      assert s + t == t;
    } else {
      assert (s + t)[1..] == s[1..] + t;
      SlotsConcat(s[1..], t);
    }
  }

  lemma {:induction false} BindConcat<V>(s: string, t: string, a: seq<V>, b: seq<V>)
    requires Slots(s) == |a|
    ensures Bind(s + t, a + b) == Bind(s, a) + Bind(t, b)
  {
    if s == "" {
      assert s + t == t && a + b == b;
    } else {
      assert (s + t)[1..] == s[1..] + t;
      if s[0] == '?' {
        assert (a + b)[1..] == a[1..] + b;
        BindConcat(s[1..], t, a[1..], b);
      } else {
        BindConcat(s[1..], t, a, b);
      }
    }
  }

  lemma {:induction false} BindPlain<V>(s: string, args: seq<V>)
    requires Slots(s) == 0
    ensures Bind(s, args) == Chars(s)
  {
    if s != "" {
      BindPlain(s[1..], args);
      assert Chars<V>(s) == [Char(s[0])] + Chars(s[1..]);
    }
  }

  /** Text without placeholders around a part leaves the part its arguments. */
  lemma BindWrap<V>(pre: string, s: string, post: string, args: seq<V>)
    requires Slots(pre) == 0 && Slots(post) == 0 && Slots(s) == |args|
    ensures Bind(pre + s + post, args) == Chars(pre) + Bind(s, args) + Chars(post)
    ensures Slots(pre + s + post) == |args|
  {
    SlotsConcat(pre, s);
    SlotsConcat(pre + s, post);
    assert [] + args == args && args + [] == args;
    BindConcat(pre, s, [], args);
    BindConcat(pre + s, post, args, []);
    BindPlain<V>(pre, []);
    BindPlain<V>(post, []);
  }

  function BindEach<V>(parts: seq<string>, args: seq<seq<V>>): seq<seq<Sym<V>>>
    requires |parts| == |args|
  {
    seq(|parts|, i requires 0 <= i < |parts| => Bind(parts[i], args[i]))
  }

  /** Joined parts take their arguments part by part. */
  lemma {:induction false} BindJoin<V>(parts: seq<string>, sep: string, args: seq<seq<V>>)
    requires |parts| == |args| && Slots(sep) == 0
    requires forall i | 0 <= i < |parts| :: Slots(parts[i]) == |args[i]|
    ensures Slots(JoinSep(parts, sep)) == |Concat(args)|
    ensures Bind(JoinSep(parts, sep), Concat(args)) == JoinSep(BindEach(parts, args), Chars(sep))
  {
    if |parts| == 1 {
      assert args[0] + Concat(args[1..]) == args[0];
    } else if |parts| > 1 {
      var rest := JoinSep(parts[1..], sep);
      BindJoin(parts[1..], sep, args[1..]);
      SlotsConcat(parts[0], sep);
      SlotsConcat(parts[0] + sep, rest);
      assert args[0] + [] == args[0];
      BindConcat(parts[0], sep, args[0], []);
      BindPlain<V>(sep, []);
      BindConcat(parts[0] + sep, rest, args[0], Concat(args[1..]));
      assert BindEach(parts, args)[1..] == BindEach(parts[1..], args[1..]);
    }
  }

  function FixedCond(col: string): string {
    col + " = ?"
  }

  function Repeat(s: string, n: nat): string {
    if n == 0 then "" else s + Repeat(s, n - 1)
  }

  function TrimRight(s: string, c: char): string {
    if s != "" && s[|s| - 1] == c then TrimRight(s[..|s| - 1], c) else s
  }

  /** One `(?,?,...)`, as it is put together from repeated `?,`. */
  function TupleText(n: nat): string {
    "(" + TrimRight(Repeat("?,", n), ',') + ")"
  }

  function Marks(n: nat): seq<string> {
    seq(n, i => "?")
  }

  lemma OneMoreMark(n: nat)
    ensures JoinSep(Marks(n + 2), ",") == "?," + JoinSep(Marks(n + 1), ",")
  {
    assert Marks(n + 2)[1..] == Marks(n + 1);
  }

  lemma TrimOne(s: string, c: char)
    requires s != "" && s[|s| - 1] != c
    ensures TrimRight(s + [c], c) == s
  {
    assert (s + [c])[..|s|] == s;
  }

  lemma {:induction false} MarksWithCommas(n: nat)
    ensures Repeat("?,", n + 1) == JoinSep(Marks(n + 1), ",") + ","
    ensures JoinSep(Marks(n + 1), ",") != "" && JoinSep(Marks(n + 1), ",")[|JoinSep(Marks(n + 1), ",")| - 1] == '?'
  {
    if n == 0 {
      assert Repeat("?,", 1) == "?," + Repeat("?,", 0);
      assert Marks(1) == ["?"];
    } else {
      MarksWithCommas(n - 1);
      OneMoreMark(n - 1);
    }
  }

  /** Repeating and trimming leaves one mark for each value, with commas between. */
  lemma RepeatedMarks(n: nat)
    ensures TrimRight(Repeat("?,", n + 1), ',') == JoinSep(Marks(n + 1), ",")
  {
    MarksWithCommas(n);
    TrimOne(JoinSep(Marks(n + 1), ","), ',');
  }

  function Vals<V>(vals: seq<V>): seq<seq<Sym<V>>> {
    seq(|vals|, i requires 0 <= i < |vals| => [Val(vals[i])])
  }

  /** The same tuple with its values in place. */
  function BoundTuple<V>(vals: seq<V>): seq<Sym<V>> {
    Chars("(") + JoinSep(Vals(vals), Chars(",")) + Chars(")")
  }

  function Singles<V>(vals: seq<V>): seq<seq<V>> {
    seq(|vals|, i requires 0 <= i < |vals| => [vals[i]])
  }

  lemma {:induction false} ConcatSingles<V>(vals: seq<V>)
    ensures Concat(Singles(vals)) == vals
  {
    if vals != [] {
      assert Singles(vals)[1..] == Singles(vals[1..]);
      ConcatSingles(vals[1..]);
    }
  }

  lemma TupleTextIsJoined(n: nat)
    ensures TupleText(n) == "(" + JoinSep(Marks(n), ",") + ")"
  {
    if n > 0 {
      RepeatedMarks(n - 1);
    } else {
      assert TrimRight(Repeat("?,", 0), ',') == "";
    }
  }

  lemma BindMark<V>(v: V)
    ensures Slots("?") == 1 && Bind("?", [v]) == [Val(v)]
  {
    assert Bind("?", [v]) == [Val(v)] + Bind("", []);
  }

  lemma BindMarks<V>(vals: seq<V>)
    ensures Slots(JoinSep(Marks(|vals|), ",")) == |vals|
    ensures Bind(JoinSep(Marks(|vals|), ","), vals) == JoinSep(Vals(vals), Chars(","))
  {
    var n, marks := |vals|, Marks(|vals|);
    forall i | 0 <= i < n
      ensures Slots(marks[i]) == |Singles(vals)[i]| && Bind(marks[i], Singles(vals)[i]) == [Val(vals[i])]
    {
      BindMark(vals[i]);
    }
    ConcatSingles(vals);
    BindJoin(marks, ",", Singles(vals));
    assert BindEach(marks, Singles(vals)) == Vals(vals);
  }

  lemma BindTuple<V>(vals: seq<V>)
    ensures Slots(TupleText(|vals|)) == |vals|
    ensures Bind(TupleText(|vals|), vals) == BoundTuple(vals)
  {
    BindMarks(vals);
    TupleTextIsJoined(|vals|);
    BindWrap("(", JoinSep(Marks(|vals|), ","), ")", vals);
  }

  function FixedConds(cols: seq<string>): seq<string> {
    seq(|cols|, i requires 0 <= i < |cols| => FixedCond(cols[i]))
  }

  function Tuples<V>(chunk: seq<seq<V>>): seq<string> {
    seq(|chunk|, i requires 0 <= i < |chunk| => TupleText(|chunk[i]|))
  }

  function Args<V>(fixedVals: seq<V>, condArgs: seq<V>, chunk: seq<seq<V>>): seq<V> {
    fixedVals + condArgs + Concat(chunk)
  }

  function BoundFixed<V>(cols: seq<string>, vals: seq<V>): seq<seq<Sym<V>>>
    requires |cols| == |vals|
  {
    seq(|cols|, i requires 0 <= i < |cols| => Chars(cols[i] + " = ") + [Val(vals[i])])
  }

  function BoundTuples<V>(chunk: seq<seq<V>>): seq<seq<Sym<V>>> {
    seq(|chunk|, i requires 0 <= i < |chunk| => BoundTuple(chunk[i]))
  }

  /** The conditions with each value next to the column, or inside the tuple, it was given
      for. */
  function BoundClauses<V>(cols: seq<string>, vals: seq<V>, cond: string, condArgs: seq<V>, inCols: seq<string>,
      chunk: seq<seq<V>>): seq<seq<Sym<V>>>
    requires |cols| == |vals|
  {
    Present(cols != [], JoinSep(BoundFixed(cols, vals), Chars(" AND ")), cond != "", Bind(cond, condArgs), chunk != [],
      Chars("(" + JoinSep(inCols, ", ") + ") IN (") + JoinSep(BoundTuples(chunk), Chars(",")) + Chars(")"))
  }

  lemma BindFixedCond<V>(col: string, v: V)
    requires Slots(col) == 0
    ensures Slots(FixedCond(col)) == 1 && Bind(FixedCond(col), [v]) == Chars(col + " = ") + [Val(v)]
  {
    var pre := col + " = ";
    SlotsConcat(col, " = ");
    BindMark(v);
    assert FixedCond(col) == pre + "?" + "";
    BindWrap(pre, "?", "", [v]);
    assert Chars<V>(pre) + [Val(v)] + Chars("") == Chars(pre) + [Val(v)];
  }

  lemma BindFixed<V>(cols: seq<string>, vals: seq<V>)
    requires |cols| == |vals| && forall c <- cols :: Slots(c) == 0
    ensures Slots(JoinSep(FixedConds(cols), " AND ")) == |vals|
    ensures Bind(JoinSep(FixedConds(cols), " AND "), vals) == JoinSep(BoundFixed(cols, vals), Chars(" AND "))
  {
    forall i | 0 <= i < |cols|
      ensures Slots(FixedCond(cols[i])) == 1
      ensures Bind(FixedCond(cols[i]), [vals[i]]) == Chars(cols[i] + " = ") + [Val(vals[i])]
    {
      assert cols[i] in cols;
      BindFixedCond(cols[i], vals[i]);
    }
    ConcatSingles(vals);
    BindJoin(FixedConds(cols), " AND ", Singles(vals));
    assert BindEach(FixedConds(cols), Singles(vals)) == BoundFixed(cols, vals);
  }

  lemma BindTuples<V>(inCols: seq<string>, chunk: seq<seq<V>>)
    requires forall c <- inCols :: Slots(c) == 0
    ensures Slots(InClause(inCols, Tuples(chunk))) == |Concat(chunk)|
    ensures Bind(InClause(inCols, Tuples(chunk)), Concat(chunk))
         == Chars("(" + JoinSep(inCols, ", ") + ") IN (") + JoinSep(BoundTuples(chunk), Chars(",")) + Chars(")")
  {
    forall i | 0 <= i < |chunk|
      ensures Slots(TupleText(|chunk[i]|)) == |chunk[i]|
      ensures Bind(TupleText(|chunk[i]|), chunk[i]) == BoundTuple(chunk[i])
    {
      BindTuple(chunk[i]);
    }
    BindJoin(Tuples(chunk), ",", chunk);
    assert BindEach(Tuples(chunk), chunk) == BoundTuples(chunk);
    PlainJoin(inCols, ", ");
    SlotsConcat("(", JoinSep(inCols, ", "));
    SlotsConcat("(" + JoinSep(inCols, ", "), ") IN (");
    BindWrap("(" + JoinSep(inCols, ", ") + ") IN (", JoinSep(Tuples(chunk), ","), ")", Concat(chunk));
  }

  lemma {:induction false} PlainJoin(parts: seq<string>, sep: string)
    requires Slots(sep) == 0 && forall p <- parts :: Slots(p) == 0
    ensures Slots(JoinSep(parts, sep)) == 0
  {
    if |parts| > 1 {
      assert parts[0] in parts;
      PlainJoin(parts[1..], sep);
      SlotsConcat(parts[0], sep);
      SlotsConcat(parts[0] + sep, JoinSep(parts[1..], sep));
    }
  }

  /** The arguments, clause by clause. */
  function ClauseArgs<V>(cols: seq<string>, vals: seq<V>, cond: string, condArgs: seq<V>,
      chunk: seq<seq<V>>): seq<seq<V>> {
    Present(cols != [], vals, cond != "", condArgs, chunk != [], Concat(chunk))
  }

  lemma ClauseArgsAreArgs<V>(cols: seq<string>, vals: seq<V>, cond: string, condArgs: seq<V>, chunk: seq<seq<V>>)
    requires |cols| == |vals| && Slots(cond) == |condArgs|
    ensures Concat(ClauseArgs(cols, vals, cond, condArgs, chunk)) == Args(vals, condArgs, chunk)
  {
    var a := ClauseArgs(cols, vals, cond, condArgs, chunk);
    assert |a| > 0 ==> Concat(a) == a[0] + Concat(a[1..]);
    assert |a| > 1 ==> Concat(a[1..]) == a[1] + Concat(a[2..]);
    assert |a| > 2 ==> Concat(a[2..]) == a[2] + Concat(a[3..]);
  }

  /** The whole statement with its values in place. */
  function BoundQuery<V>(sqls: seq<string>, table: string, join: string, bound: seq<seq<Sym<V>>>, order: string,
      limit: string): seq<Sym<V>> {
    Chars(WithSpaces(sqls) + table + " " + join + " WHERE") +
    (if bound == [] then [] else Chars(" ") + JoinSep(bound, Chars(" AND "))) +
    Chars(Tail(order, limit))
  }

  /** Every placeholder of the statement is bound to the value its clause was given, and
      every argument is used. */
  lemma PlaceholdersAlign<V>(sqls: seq<string>, table: string, join: string, cols: seq<string>, vals: seq<V>,
      cond: string, condArgs: seq<V>, inCols: seq<string>, chunk: seq<seq<V>>, order: string, limit: string)
    requires |cols| == |vals| && Slots(cond) == |condArgs|
    requires Slots(WithSpaces(sqls) + table + " " + join + " WHERE") == 0 && Slots(Tail(order, limit)) == 0
    requires (forall c <- cols :: Slots(c) == 0) && (forall c <- inCols :: Slots(c) == 0)
    ensures var clauses := Clauses(FixedConds(cols), cond, inCols, Tuples(chunk));
      var query := QueryText(sqls, table, join, clauses, order, limit);
      var bound := BoundClauses(cols, vals, cond, condArgs, inCols, chunk);
      var args := Args(vals, condArgs, chunk);
      && Slots(query) == |args|
      && Bind(query, args) == BoundQuery(sqls, table, join, bound, order, limit)
  {
    ClausesAlign(cols, vals, cond, condArgs, inCols, chunk);
    ClauseArgsAreArgs(cols, vals, cond, condArgs, chunk);
    QueryAligns(sqls, table, join, Clauses(FixedConds(cols), cond, inCols, Tuples(chunk)),
      ClauseArgs(cols, vals, cond, condArgs, chunk),
      BoundClauses(cols, vals, cond, condArgs, inCols, chunk), order, limit);
  }

  lemma QueryAligns<V>(sqls: seq<string>, table: string, join: string, clauses: seq<string>, args: seq<seq<V>>,
      bound: seq<seq<Sym<V>>>, order: string, limit: string)
    requires Aligned(clauses, args, bound)
    requires Slots(WithSpaces(sqls) + table + " " + join + " WHERE") == 0 && Slots(Tail(order, limit)) == 0
    ensures Slots(QueryText(sqls, table, join, clauses, order, limit)) == |Concat(args)|
    ensures Bind(QueryText(sqls, table, join, clauses, order, limit), Concat(args)) ==
      BoundQuery(sqls, table, join, bound, order, limit)
  {
    var head := WithSpaces(sqls) + table + " " + join + " WHERE";
    var joined := JoinSep(clauses, " AND ");
    BindJoin(clauses, " AND ", args);
    if clauses != [] {
      BindWrap(" ", joined, "", Concat(args));
      assert " " + joined + "" == " " + joined;
      BindWrap(head, " " + joined, Tail(order, limit), Concat(args));
    } else {
      BindWrap<V>(head, "", Tail(order, limit), []);
    }
  }

  /** These clauses take these arguments, and read like this with them in place. */
  ghost predicate Aligned<V>(clauses: seq<string>, args: seq<seq<V>>, bound: seq<seq<Sym<V>>>) {
    && |clauses| == |args|
    && (forall i | 0 <= i < |clauses| :: Slots(clauses[i]) == |args[i]|)
    && BindEach(clauses, args) == bound
  }

  lemma AlignedConcat<V>(p: seq<string>, a: seq<seq<V>>, x: seq<seq<Sym<V>>>, q: seq<string>, b: seq<seq<V>>,
      y: seq<seq<Sym<V>>>)
    requires Aligned(p, a, x) && Aligned(q, b, y)
    ensures Aligned(p + q, a + b, x + y)
  {
    assert BindEach(p + q, a + b) == BindEach(p, a) + BindEach(q, b);
  }

  lemma AlignedOne<V>(clause: string, args: seq<V>, bound: seq<Sym<V>>)
    requires Slots(clause) == |args| && Bind(clause, args) == bound
    ensures Aligned([clause], [args], [bound])
    ensures Aligned<V>([], [], [])
  {
    assert BindEach<V>([], []) == [];
  }

  lemma ClausesAlign<V>(cols: seq<string>, vals: seq<V>, cond: string, condArgs: seq<V>, inCols: seq<string>,
      chunk: seq<seq<V>>)
    requires |cols| == |vals| && Slots(cond) == |condArgs|
    requires (forall c <- cols :: Slots(c) == 0) && (forall c <- inCols :: Slots(c) == 0)
    ensures Aligned(Clauses(FixedConds(cols), cond, inCols, Tuples(chunk)),
      ClauseArgs(cols, vals, cond, condArgs, chunk), BoundClauses(cols, vals, cond, condArgs, inCols, chunk))
  {
    BindFixed(cols, vals);
    BindTuples(inCols, chunk);
    var fixed, tuples := JoinSep(FixedConds(cols), " AND "), InClause(inCols, Tuples(chunk));
    AlignedOne(fixed, vals, Bind(fixed, vals));
    AlignedOne(cond, condArgs, Bind(cond, condArgs));
    AlignedOne(tuples, Concat(chunk), Bind(tuples, Concat(chunk)));
    var p, a := if cols != [] then [fixed] else [], if cols != [] then [vals] else [];
    var x := if cols != [] then [Bind(fixed, vals)] else [];
    var q, b := if cond != "" then [cond] else [], if cond != "" then [condArgs] else [];
    var y := if cond != "" then [Bind(cond, condArgs)] else [];
    AlignedConcat(p, a, x, q, b, y);
    if chunk != [] {
      AlignedConcat(p + q, a + b, x + y, [tuples], [Concat(chunk)], [Bind(tuples, Concat(chunk))]);
    } else {
      AlignedConcat<V>(p + q, a + b, x + y, [], [], []);
    }
  }

  /** A number as `%d` prints it. */
  function Decimal(n: int): (s: string)
    ensures Slots(s) == 0
    decreases n < 0, if n < 0 then -n else n
  {
    if n < 0 then
      SlotsConcat("-", Decimal(-n));
      "-" + Decimal(-n)
    else if n < 10 then
      [('0' as int + n) as char]
    else
      SlotsConcat(Decimal(n / 10), Decimal(n % 10));
      Decimal(n / 10) + Decimal(n % 10)
  }

  /** The number that these digits are. */
  function Digits(s: string): int {
    if s == "" then 0 else 10 * Digits(s[..|s| - 1]) + (s[|s| - 1] as int - '0' as int)
  }

  function Number(s: string): int {
    if s != "" && s[0] == '-' then -Digits(s[1..]) else Digits(s)
  }

  predicate AreDigits(s: string) {
    forall i | 0 <= i < |s| :: '0' <= s[i] <= '9'
  }

  lemma {:induction false} NatReads(n: nat)
    ensures Digits(Decimal(n)) == n && Decimal(n) != "" && AreDigits(Decimal(n))
    decreases n
  {
    var s := Decimal(n);
    if n < 10 {
      assert s == [('0' as int + n) as char] && s[..0] == "";
    } else {
      NatReads(n / 10);
      NatReads(n % 10);
      assert s[..|s| - 1] == Decimal(n / 10) && s[|s| - 1] == Decimal(n % 10)[0];
      assert Decimal(n % 10) == [('0' as int + n % 10) as char];
    }
  }

  /** What is printed is read back as the number it is. */
  lemma DecimalReads(n: int)
    ensures Number(Decimal(n)) == n && Decimal(n) != "" && ' ' !in Decimal(n)
  {
    if n < 0 {
      NatReads(-n);
      assert Decimal(n)[1..] == Decimal(-n);
    } else {
      NatReads(n);
    }
  }

  /** The fixed conditions, the tuples and the arguments of one chunk, as both callers of
      `BuildQuery` collect them. */
  method Collect<V>(cols: seq<string>, vals: seq<V>, condArgs: seq<V>, chunk: seq<seq<V>>) returns (conds: seq<string>,
      tuples: seq<string>, args: seq<V>)
    requires |cols| == |vals|
    ensures conds == FixedConds(cols) && tuples == Tuples(chunk)
    ensures args == Args(vals, condArgs, chunk)
  {
    args := [];
    if |cols| > 0 {
      args := args + vals;
    }
    if |condArgs| > 0 {
      args := args + condArgs;
    }
    assert args == vals + condArgs;
    tuples := [];
    for i := 0 to |chunk|
      invariant tuples == Tuples(chunk[..i])
      invariant args == vals + condArgs + Concat(chunk[..i])
    {
      assert chunk[..i + 1] == chunk[..i] + [chunk[i]];
      ConcatAppend(chunk[..i], chunk[i]);
      tuples := tuples + [TupleText(|chunk[i]|)];
      args := args + chunk[i];
    }
    assert chunk[..|chunk|] == chunk;
    conds := [];
    for i := 0 to |cols|
      invariant conds == FixedConds(cols[..i])
    {
      conds := conds + [FixedCond(cols[i])];
    }
    assert cols[..|cols|] == cols;
  }

  method Statement<V>(sqls: seq<string>, table: string, join: string, cols: seq<string>, vals: seq<V>, cond: string,
      condArgs: seq<V>, inCols: seq<string>, chunk: seq<seq<V>>, order: string,
      limitText: string) returns (query: string, args: seq<V>)
    requires |cols| == |vals| && Slots(cond) == |condArgs|
    requires Slots(WithSpaces(sqls) + table + " " + join + " WHERE") == 0 && Slots(Tail(order, limitText)) == 0
    requires (forall c <- cols :: Slots(c) == 0) && (forall c <- inCols :: Slots(c) == 0)
    ensures Slots(query) == |args|
    ensures Bind(query, args) == BoundQuery(sqls, table, join, BoundClauses(cols, vals, cond, condArgs, inCols, chunk),
      order, limitText)
  {
    var conds, tuples;
    conds, tuples, args := Collect(cols, vals, condArgs, chunk);
    query := BuildQuery(sqls, table, join, conds, cond, inCols, tuples, order, limitText);
    PlaceholdersAlign(sqls, table, join, cols, vals, cond, condArgs, inCols, chunk, order, limitText);
  }

  /** The statement of one page: with its arguments bound, each value stands where it was
      meant to. */
  method SelectStatement<V>(fields: seq<string>, table: string, join: string, cols: seq<string>, vals: seq<V>,
      cond: string, condArgs: seq<V>, inCols: seq<string>, chunk: seq<seq<V>>, order: string, limit: int,
      offset: int) returns (query: string, args: seq<V>)
    requires |cols| == |vals| && Slots(cond) == |condArgs|
    requires Slots(table) == 0 && Slots(join) == 0 && Slots(order) == 0
    requires (forall f <- fields :: Slots(f) == 0) && (forall c <- cols :: Slots(c) == 0)
    requires (forall c <- inCols :: Slots(c) == 0)
    ensures Slots(query) == |args|
    ensures Bind(query, args) == BoundQuery(SelectHead(fields), table, join,
      BoundClauses(cols, vals, cond, condArgs, inCols, chunk), order, LimitOffset(limit, offset))
  {
    SelectPlain(fields, table, join);
    SelectTail(order, limit, offset);
    query, args := Statement(SelectHead(fields), table, join, cols, vals, cond, condArgs, inCols, chunk, order,
      LimitOffset(limit, offset));
  }

  lemma SelectPlain(fields: seq<string>, table: string, join: string)
    requires (forall f <- fields :: Slots(f) == 0) && Slots(table) == 0 && Slots(join) == 0
    ensures Slots(WithSpaces(SelectHead(fields)) + table + " " + join + " WHERE") == 0
  {
    PlainJoin(fields, ", ");
    SelectWordsPlain();
    HeadPlain(SelectHead(fields), table, join);
  }

  lemma SelectWordsPlain()
    ensures Slots("SELECT ") == 0 && Slots(" FROM ") == 0
  {
  }

  function SelectHead(fields: seq<string>): seq<string> {
    ["SELECT ", JoinSep(fields, ", "), " FROM "]
  }

  function LimitOffset(limit: int, offset: int): string {
    " LIMIT " + Decimal(limit) + " OFFSET " + Decimal(offset)
  }

  lemma HeadPlain(sqls: seq<string>, table: string, join: string)
    requires (forall s <- sqls :: Slots(s) == 0) && Slots(table) == 0 && Slots(join) == 0
    ensures Slots(WithSpaces(sqls) + table + " " + join + " WHERE") == 0
  {
    var start := WithSpaces(sqls);
    SpacedPlain(sqls);
    SlotsConcat(start, table);
    SlotsConcat(start + table, " ");
    SlotsConcat(start + table + " ", join);
    SlotsConcat(start + table + " " + join, " WHERE");
  }

  lemma {:induction false} SpacedPlain(sqls: seq<string>)
    requires forall s <- sqls :: Slots(s) == 0
    ensures Slots(WithSpaces(sqls)) == 0
  {
    if sqls != [] {
      assert sqls[0] in sqls;
      SpacedPlain(sqls[1..]);
      SlotsConcat(sqls[0], " ");
      SlotsConcat(sqls[0] + " ", WithSpaces(sqls[1..]));
    }
  }

  lemma SelectTail(order: string, limit: int, offset: int)
    requires Slots(order) == 0
    ensures Slots(Tail(order, LimitOffset(limit, offset))) == 0
  {
    SlotsConcat(" LIMIT ", Decimal(limit));
    SlotsConcat(" LIMIT " + Decimal(limit), " OFFSET ");
    SlotsConcat(" LIMIT " + Decimal(limit) + " OFFSET ", Decimal(offset));
    TailPlain(order, LimitOffset(limit, offset));
  }

  lemma TailPlain(order: string, limit: string)
    requires Slots(order) == 0 && Slots(limit) == 0
    ensures Slots(Tail(order, limit)) == 0
  {
    SlotsConcat(" ", order);
    SlotsConcat(" ", limit);
    SlotsConcat(if order != "" then " " + order else "", if limit != "" then " " + limit else "");
  }

  method DeleteStatement<V>(table: string, cols: seq<string>, vals: seq<V>, cond: string, condArgs: seq<V>,
      inCols: seq<string>, chunk: seq<seq<V>>, limit: int) returns (query: string, args: seq<V>)
    requires |cols| == |vals| && Slots(cond) == |condArgs| && Slots(table) == 0
    requires (forall c <- cols :: Slots(c) == 0) && (forall c <- inCols :: Slots(c) == 0)
    ensures Slots(query) == |args|
    ensures Bind(query, args) == BoundQuery(DeleteHead(), table, "",
      BoundClauses(cols, vals, cond, condArgs, inCols, chunk), "", DeleteLimit(limit))
  {
    DeletePlain(table);
    DeleteTail(limit);
    query, args := Statement(DeleteHead(), table, "", cols, vals, cond, condArgs, inCols, chunk, "",
      DeleteLimit(limit));
  }

  lemma DeletePlain(table: string)
    requires Slots(table) == 0
    ensures Slots(WithSpaces(DeleteHead()) + table + " " + "" + " WHERE") == 0
  {
    HeadPlain(DeleteHead(), table, "");
  }

  function DeleteHead(): seq<string> {
    ["DELETE FROM "]
  }

  function DeleteLimit(limit: int): string {
    if limit > 0 then " LIMIT " + Decimal(limit) + " " else ""
  }

  lemma DeleteTail(limit: int)
    ensures Slots(Tail("", DeleteLimit(limit))) == 0
  {
    SlotsConcat(" LIMIT ", Decimal(limit));
    SlotsConcat(" LIMIT " + Decimal(limit), " ");
    TailPlain("", DeleteLimit(limit));
  }
}
