/** Reading a `WHERE` part with its values in place: words between spaces, where `AND` and `OR`,
    in capitals or not, connect the phrases between them outside all parentheses. */
module SqlTokens {
  import opened Sequences
  import opened SqlText
  import opened SqlArgs
  import opened SqlWhere
  import opened SqlKeyset

  /** Text with its values in place. */
  type Bound = seq<Sym<int>>

  const SPACE: Bound := [Char(' ')]

  /** The words of `s`, the first of which began with `word`. */
  function Split(s: Bound, word: Bound): seq<Bound> {
    if s == [] then (if word == [] then [] else [word])
    else if s[0] == Char(' ') then (if word == [] then [] else [word]) + Split(s[1..], [])
    else Split(s[1..], word + [s[0]])
  }

  function Words(s: Bound): seq<Bound> {
    Split(s, [])
  }

  lemma {:induction false} SplitAtSpace(a: Bound, b: Bound, word: Bound)
    ensures Split(a + SPACE + b, word) == Split(a, word) + Split(b, [])
  {
    var s := a + SPACE + b;
    if a == [] {
      assert s[1..] == b;
    } else {
      assert s[1..] == a[1..] + SPACE + b;
      if a[0] == Char(' ') {
        SplitAtSpace(a[1..], b, []);
      } else {
        SplitAtSpace(a[1..], b, word + [a[0]]);
      }
    }
  }

  function Opens(x: Sym<int>): int {
    if x == Char('(') then 1 else if x == Char(')') then -1 else 0
  }

  /** Opening parentheses less closing ones. */
  function Depth(s: Bound): int {
    if s == [] then 0 else Opens(s[0]) + Depth(s[1..])
  }

  lemma {:induction false} DepthConcat(a: Bound, b: Bound)
    ensures Depth(a + b) == Depth(a) + Depth(b)
  {
    if a == [] {
      assert a + b == b;
    } else {
      assert (a + b)[1..] == a[1..] + b;
      DepthConcat(a[1..], b);
    }
  }

  function DepthOfWords(words: seq<Bound>): int {
    if words == [] then 0 else Depth(words[0]) + DepthOfWords(words[1..])
  }

  lemma {:induction false} WordsKeepDepth(s: Bound, word: Bound)
    ensures DepthOfWords(Split(s, word)) == Depth(word) + Depth(s)
  {
    if s == [] {
      assert word != [] ==> DepthOfWords([word]) == Depth(word) + DepthOfWords([]);
    } else if s[0] == Char(' ') {
      WordsKeepDepth(s[1..], []);
      var rest := Split(s[1..], []);
      assert [] + rest == rest;
      assert word != [] ==> ([word] + rest)[0] == word && ([word] + rest)[1..] == rest;
    } else {
      WordsKeepDepth(s[1..], word + [s[0]]);
      DepthConcat(word, [s[0]]);
      assert Depth([s[0]]) == Opens(s[0]) + Depth([s[0]][1..]);
    }
  }

  function Upper(c: char): char {
    if 'a' <= c <= 'z' then c - 'a' + 'A' else c
  }

  /** The word, however it is capitalised. */
  predicate IsWord(w: Bound, upper: string) {
    |w| == |upper| && forall i | 0 <= i < |w| :: w[i].Char? && Upper(w[i].c) == upper[i]
  }

  predicate IsAnd(w: Bound) {
    IsWord(w, "AND")
  }

  predicate IsOr(w: Bound) {
    IsWord(w, "OR")
  }

  lemma {:induction false} NoParentheses(w: Bound)
    requires forall i | 0 <= i < |w| :: Opens(w[i]) == 0
    ensures Depth(w) == 0
  {
    if w != [] {
      NoParentheses(w[1..]);
    }
  }

  lemma ConnectivesAreFlat(w: Bound)
    ensures IsAnd(w) || IsOr(w) ==> Depth(w) == 0
  {
    if IsAnd(w) || IsOr(w) {
      NoParentheses(w);
    }
  }

  /** A phrase of words, or a connective. */
  datatype Lexeme = Phrase(words: seq<Bound>) | Both | Either

  /** Words to lexemes, inside `depth` parentheses and with a phrase begun. */
  function Lex(words: seq<Bound>, depth: int, begun: seq<Bound>): seq<Lexeme> {
    var phrase := if begun == [] then [] else [Phrase(begun)];
    if words == [] then phrase
    else if depth == 0 && IsAnd(words[0]) then phrase + [Both] + Lex(words[1..], 0, [])
    else if depth == 0 && IsOr(words[0]) then phrase + [Either] + Lex(words[1..], 0, [])
    else Lex(words[1..], depth + Depth(words[0]), begun + [words[0]])
  }

  lemma {:induction false} LexAtAnd(a: seq<Bound>, link: Bound, b: seq<Bound>, depth: int, begun: seq<Bound>)
    requires depth + DepthOfWords(a) == 0 && IsAnd(link)
    ensures Lex(a + [link] + b, depth, begun) == Lex(a, depth, begun) + [Both] + Lex(b, 0, [])
  {
    var words := a + [link] + b;
    if a == [] {
      assert words[0] == link && words[1..] == b;
    } else {
      assert words[0] == a[0] && words[1..] == a[1..] + [link] + b && words != [];
      ConnectivesAreFlat(a[0]);
      assert DepthOfWords(a) == Depth(a[0]) + DepthOfWords(a[1..]);
      if depth == 0 && (IsAnd(a[0]) || IsOr(a[0])) {
        LexAtAnd(a[1..], link, b, 0, []);
      } else {
        LexAtAnd(a[1..], link, b, depth + Depth(a[0]), begun + [a[0]]);
      }
    }
  }

  /** What a phrase means is the database's. */
  type Meaning = seq<Bound> -> Token

  function TokenOf(l: Lexeme, mean: Meaning): Token {
    match l
    case Both => And
    case Either => Or
    case Phrase(words) => mean(words)
  }

  function ReadLexemes(lexemes: seq<Lexeme>, mean: Meaning): seq<Token> {
    seq(|lexemes|, i requires 0 <= i < |lexemes| => TokenOf(lexemes[i], mean))
  }

  function ReadWords(words: seq<Bound>, mean: Meaning): seq<Token> {
    ReadLexemes(Lex(words, 0, []), mean)
  }

  function Read(s: Bound, mean: Meaning): seq<Token> {
    ReadWords(Words(s), mean)
  }

  /** Words joined by `AND` read as those on either side do, if the first close all their
      parentheses. */
  lemma ReadWordsAtAnd(a: seq<Bound>, link: Bound, b: seq<Bound>, mean: Meaning)
    requires DepthOfWords(a) == 0 && IsAnd(link)
    ensures ReadWords(a + [link] + b, mean) == ReadWords(a, mean) + [And] + ReadWords(b, mean)
  {
    LexAtAnd(a, link, b, 0, []);
    var x, y := Lex(a, 0, []), Lex(b, 0, []);
    assert ReadLexemes(x + [Both] + y, mean) == ReadLexemes(x, mean) + [And] + ReadLexemes(y, mean);
  }

  const AND: Bound := [Char('A'), Char('N'), Char('D')]

  lemma AndIsWord()
    ensures IsAnd(AND) && Words(AND) == [AND]
    ensures Chars(" AND ") == SPACE + AND + SPACE && Depth(Chars(" AND ")) == 0
  {
    var a: Bound, an: Bound := [Char('A')], [Char('A'), Char('N')];
    var d: Bound, nd: Bound := [Char('D')], [Char('N'), Char('D')];
    assert AND[1..] == nd && nd[1..] == d && d[1..] == [];
    assert Split(AND, []) == Split(nd, [] + [AND[0]]) && [] + [AND[0]] == a;
    assert Split(nd, a) == Split(d, a + [nd[0]]) && a + [nd[0]] == an;
    assert Split(d, an) == Split([], an + [d[0]]) && an + [d[0]] == AND;
    NoParentheses(Chars(" AND "));
  }

  lemma WordsAtAnd(a: Bound, b: Bound)
    ensures Words(a + Chars(" AND ") + b) == Words(a) + [AND] + Words(b)
  {
    AndIsWord();
    assert a + Chars(" AND ") + b == a + SPACE + (AND + SPACE + b);
    SplitAtSpace(a, AND + SPACE + b, []);
    SplitAtSpace(AND, b, []);
  }

  lemma ReadAtAnd(a: Bound, b: Bound, mean: Meaning)
    requires Depth(a) == 0
    ensures Read(a + Chars(" AND ") + b, mean) == Read(a, mean) + [And] + Read(b, mean)
  {
    WordsAtAnd(a, b);
    WordsKeepDepth(a, []);
    AndIsWord();
    ReadWordsAtAnd(Words(a), AND, Words(b), mean);
  }

  function ReadEach(parts: seq<Bound>, mean: Meaning): seq<seq<Token>> {
    seq(|parts|, i requires 0 <= i < |parts| => Read(parts[i], mean))
  }

  lemma {:induction false} ReadJoined(parts: seq<Bound>, mean: Meaning)
    requires forall p <- parts :: Depth(p) == 0
    ensures parts != [] ==> Read(JoinSep(parts, Chars(" AND ")), mean) == JoinSep(ReadEach(parts, mean), [And])
    ensures Depth(JoinSep(parts, Chars(" AND "))) == 0
  {
    if |parts| == 1 {
      assert ReadEach(parts, mean) == [Read(parts[0], mean)];
    } else if |parts| > 1 {
      var rest := JoinSep(parts[1..], Chars(" AND "));
      assert parts[0] in parts;
      ReadJoined(parts[1..], mean);
      ReadAtAnd(parts[0], rest, mean);
      DepthConcat(parts[0], Chars(" AND "));
      DepthConcat(parts[0] + Chars(" AND "), rest);
      AndIsWord();
      assert ReadEach(parts, mean)[1..] == ReadEach(parts[1..], mean);
    }
  }

  /** The condition a text with its values is: none, or what it reads as. */
  function Condition(cond: string, args: seq<int>, mean: Meaning): CondText {
    if cond == "" then Empty else Text(Read(Bind(cond, args), mean))
  }

  /** The IN part with its values in place. */
  function BoundIn(inCols: seq<string>, chunk: seq<seq<int>>): Bound {
    Chars("(" + JoinSep(inCols, ", ") + ") IN (") + JoinSep(BoundTuples(chunk), Chars(",")) + Chars(")")
  }

  /** The phrases that this code writes mean what they say: `col = ` with its value, and the IN
      part with its tuples. */
  ghost predicate Means(mean: Meaning, q: QueryCond, chunk: seq<seq<int>>)
    requires |q.fixedCols| == |q.fixedVals|
  {
    && (forall i | 0 <= i < |q.fixedCols| ::
          Read(BoundFixed(q.fixedCols, q.fixedVals)[i], mean) == FixedParts(q.fixedCols, q.fixedVals)[i])
    && (chunk != [] ==> Read(BoundIn(q.inCols, chunk), mean) == InPart(q.inCols, chunk))
  }

  /** A name that closes the parentheses it opens. */
  predicate Flat(name: string) {
    Depth(Chars(name)) == 0
  }

  lemma CharsConcat(a: string, b: string)
    ensures Chars<int>(a + b) == Chars(a) + Chars(b)
  {
  }

  lemma FlatFixed(cols: seq<string>, vals: seq<int>)
    requires |cols| == |vals| && forall c <- cols :: Flat(c)
    ensures forall p <- BoundFixed(cols, vals) :: Depth(p) == 0
  {
    forall i | 0 <= i < |cols|
      ensures Depth(BoundFixed(cols, vals)[i]) == 0
    {
      assert cols[i] in cols;
      CharsConcat(cols[i], " = ");
      DepthConcat(Chars(cols[i]), Chars(" = "));
      DepthConcat(Chars(cols[i] + " = "), [Val(vals[i])]);
      NoParentheses(Chars(" = "));
      NoParentheses([Val(vals[i])]);
    }
  }

  lemma {:induction false} FlatJoin(parts: seq<Bound>, sep: Bound)
    requires Depth(sep) == 0 && forall p <- parts :: Depth(p) == 0
    ensures Depth(JoinSep(parts, sep)) == 0
  {
    if |parts| > 1 {
      assert parts[0] in parts;
      FlatJoin(parts[1..], sep);
      DepthConcat(parts[0], sep);
      DepthConcat(parts[0] + sep, JoinSep(parts[1..], sep));
    }
  }

  lemma {:induction false} FlatNames(names: seq<string>, sep: string)
    requires Flat(sep) && forall s <- names :: Flat(s)
    ensures Flat(JoinSep(names, sep))
  {
    if |names| > 1 {
      var rest := JoinSep(names[1..], sep);
      assert names[0] in names;
      FlatNames(names[1..], sep);
      CharsConcat(names[0], sep);
      CharsConcat(names[0] + sep, rest);
      DepthConcat(Chars(names[0]), Chars(sep));
      DepthConcat(Chars(names[0] + sep), Chars(rest));
    }
  }

  lemma Parentheses()
    ensures Depth(Chars("(")) == 1 && Depth(Chars(")")) == -1
    ensures Flat(", ") && Depth(Chars(",")) == 0 && Flat(") IN (")
  {
    assert Chars<int>("(") == [Char('(')] && Chars<int>(")") == [Char(')')];
    assert Depth([Char('(')]) == 1 + Depth([]) && Depth([Char(')')]) == -1 + Depth([]);
    NoParentheses(Chars(", "));
    NoParentheses(Chars(","));
    NoParentheses(Chars(" IN "));
    assert ") IN (" == ")" + " IN " + "(";
    CharsConcat(")", " IN ");
    CharsConcat(")" + " IN ", "(");
    DepthConcat(Chars(")"), Chars(" IN "));
    DepthConcat(Chars(")" + " IN "), Chars("("));
  }

  lemma FlatTuple(vals: seq<int>)
    ensures Depth(BoundTuple(vals)) == 0
  {
    var inner := JoinSep(Vals(vals), Chars(","));
    Parentheses();
    forall i | 0 <= i < |vals|
      ensures Depth(Vals(vals)[i]) == 0
    {
      NoParentheses([Val(vals[i])]);
    }
    FlatJoin(Vals(vals), Chars(","));
    DepthConcat(Chars("("), inner);
    DepthConcat(Chars("(") + inner, Chars(")"));
  }

  lemma FlatIn(inCols: seq<string>, chunk: seq<seq<int>>)
    requires forall c <- inCols :: Flat(c)
    ensures Depth(BoundIn(inCols, chunk)) == 0
  {
    var cols, vals := JoinSep(inCols, ", "), JoinSep(BoundTuples(chunk), Chars(","));
    Parentheses();
    FlatNames(inCols, ", ");
    forall i | 0 <= i < |chunk|
      ensures Depth(BoundTuples(chunk)[i]) == 0
    {
      FlatTuple(chunk[i]);
    }
    FlatJoin(BoundTuples(chunk), Chars(","));
    OpenIn(cols);
    DepthConcat(Chars("(" + cols + ") IN ("), vals);
    DepthConcat(Chars("(" + cols + ") IN (") + vals, Chars(")"));
  }

  lemma OpenIn(cols: string)
    requires Flat(cols)
    ensures Depth(Chars("(" + cols + ") IN (")) == 1
  {
    Parentheses();
    CharsConcat("(", cols);
    CharsConcat("(" + cols, ") IN (");
    DepthConcat(Chars("("), Chars(cols));
    DepthConcat(Chars("(" + cols), Chars(") IN ("));
  }

  /** The conditions as the statement has them once its arguments are bound read as the tokens
      whose meaning is proved, if names and the user's condition close the parentheses they
      open. */
  lemma TextReadsAsTokens(mean: Meaning, q: QueryCond, cond: string, condArgs: seq<int>, chunk: seq<seq<int>>)
    requires |q.fixedCols| == |q.fixedVals| && Means(mean, q, chunk)
    requires Depth(Bind(cond, condArgs)) == 0
    requires (forall c <- q.fixedCols :: Flat(c)) && (forall c <- q.inCols :: Flat(c))
    requires q.fixedCols != [] || cond != "" || chunk != []
    ensures var bound := BoundClauses(q.fixedCols, q.fixedVals, cond, condArgs, q.inCols, chunk);
      Read(JoinSep(bound, Chars(" AND ")), mean) == WhereTokens(q, Condition(cond, condArgs, mean), chunk)
  {
    var fixed := BoundFixed(q.fixedCols, q.fixedVals);
    FlatFixed(q.fixedCols, q.fixedVals);
    FlatIn(q.inCols, chunk);
    ReadJoined(fixed, mean);
    assert ReadEach(fixed, mean) == FixedParts(q.fixedCols, q.fixedVals);
    var bound := BoundClauses(q.fixedCols, q.fixedVals, cond, condArgs, q.inCols, chunk);
    ReadJoined(bound, mean);
    ClausesRead(mean, q, cond, condArgs, chunk);
  }

  lemma ClausesRead(mean: Meaning, q: QueryCond, cond: string, condArgs: seq<int>, chunk: seq<seq<int>>)
    requires |q.fixedCols| == |q.fixedVals| && Means(mean, q, chunk)
    requires q.fixedCols != [] ==>
      Read(JoinSep(BoundFixed(q.fixedCols, q.fixedVals), Chars(" AND ")), mean) ==
      JoinSep(FixedParts(q.fixedCols, q.fixedVals), [And])
    ensures var bound := BoundClauses(q.fixedCols, q.fixedVals, cond, condArgs, q.inCols, chunk);
      ReadEach(bound, mean) == Parts(q, Condition(cond, condArgs, mean), chunk)
  {
  }

  /** So does the `WHERE` part of the statement that is sent, its arguments bound in order. */
  lemma StatementReads(mean: Meaning, sqls: seq<string>, table: string, join: string, q: QueryCond, cond: string,
      condArgs: seq<int>, chunk: seq<seq<int>>, order: string, limit: string)
    requires |q.fixedCols| == |q.fixedVals| && Slots(cond) == |condArgs| && Means(mean, q, chunk)
    requires Slots(WithSpaces(sqls) + table + " " + join + " WHERE") == 0 && Slots(Tail(order, limit)) == 0
    requires forall c <- q.fixedCols :: Slots(c) == 0 && Flat(c)
    requires forall c <- q.inCols :: Slots(c) == 0 && Flat(c)
    requires Depth(Bind(cond, condArgs)) == 0 && (q.fixedCols != [] || cond != "" || chunk != [])
    ensures var clauses := Clauses(FixedConds(q.fixedCols), cond, q.inCols, Tuples(chunk));
      exists part: Bound ::
      && Bind(QueryText(sqls, table, join, clauses, order, limit), Args(q.fixedVals, condArgs, chunk)) ==
         Chars(WithSpaces(sqls) + table + " " + join + " WHERE") + (SPACE + part) + Chars(Tail(order, limit))
      && Read(part, mean) == WhereTokens(q, Condition(cond, condArgs, mean), chunk)
  {
    var bound := BoundClauses(q.fixedCols, q.fixedVals, cond, condArgs, q.inCols, chunk);
    PlaceholdersAlign(sqls, table, join, q.fixedCols, q.fixedVals, cond, condArgs, q.inCols, chunk, order, limit);
    TextReadsAsTokens(mean, q, cond, condArgs, chunk);
    assert Chars<int>(" ") == SPACE;
    assert bound != [];
    var part := JoinSep(bound, Chars(" AND "));
    assert Read(part, mean) == WhereTokens(q, Condition(cond, condArgs, mean), chunk);
  }

  // The conditions of keyset pagination.

  function ModeText(q: QueryCond, cond: string): string {
    if q.fixedCols != [] || cond != "" then " AND " else ""
  }

  /** `Where` with the texts `execOrderFieldSelect` gives it for the first page and for a later
      one. */
  function FirstText(q: QueryCond, cond: string): string {
    cond + " " + (" " + ModeText(q, cond) + " 1=1")
  }

  function NextText(q: QueryCond, cond: string, field: string, op: string): string {
    cond + " " + (ModeText(q, cond) + " " + field + " " + op + " ?") + " " + "AND 1=1"
  }

  lemma {:induction false} BindUpTo(cond: string, args: seq<int>, more: string, rest: seq<int>)
    requires Slots(cond) == |args|
    ensures Bind(cond + more, args + rest) == Bind(cond, args) + Bind(more, rest)
  {
    BindConcat(cond, more, args, rest);
  }

  lemma SpaceInFront(s: Bound)
    ensures Words(SPACE + s) == Words(s)
  {
    assert (SPACE + s)[1..] == s;
    assert [] + Split(s, []) == Split(s, []);
  }

  function Link(q: QueryCond, cond: string): seq<Bound> {
    if q.fixedCols != [] || cond != "" then [AND] else []
  }

  /** Spaces around a condition and its connective are no words. */
  lemma ModeWords(q: QueryCond, cond: string, front: Bound, more: Bound)
    ensures Words(front + SPACE + (Chars(ModeText(q, cond)) + SPACE + more)) ==
      Words(front) + Link(q, cond) + Words(more)
  {
    var mode: Bound := Chars(ModeText(q, cond));
    SplitAtSpace(front, mode + SPACE + more, []);
    SplitAtSpace(mode, more, []);
    AndIsWord();
    if mode == [] {
      assert Words([]) == [];
    } else {
      assert mode == SPACE + (AND + SPACE + []);
      SpaceInFront(AND + SPACE + []);
      SplitAtSpace(AND, [], []);
    }
    assert Words(front) + (Words(mode) + Words(more)) == Words(front) + Words(mode) + Words(more);
  }

  lemma ExtendedReads(mean: Meaning, q: QueryCond, cond: string, args: seq<int>, more: seq<Bound>)
    requires Depth(Bind(cond, args)) == 0
    ensures var c := Condition(cond, args, mean);
      ReadWords(Words(Bind(cond, args)) + Link(q, cond) + more, mean) ==
        SqlWhere.Tokens(c) + Mode(q, c) + ReadWords(more, mean)
  {
    var words := Words(Bind(cond, args));
    WordsKeepDepth(Bind(cond, args), []);
    AndIsWord();
    if q.fixedCols != [] || cond != "" {
      ReadWordsAtAnd(words, AND, more, mean);
    } else {
      assert words + [] + more == more;
    }
  }

  lemma {:induction false} NoMarks(s: string)
    requires '?' !in s
    ensures Slots(s) == 0
  {
    if s != "" {
      assert s[0] in s && forall c <- s[1..] :: c in s;
      NoMarks(s[1..]);
    }
  }

  /** The text behind a condition on the first page. */
  function FirstMore(q: QueryCond, cond: string): string {
    " " + (" " + ModeText(q, cond) + " 1=1")
  }

  lemma FirstMoreChars(q: QueryCond, cond: string)
    ensures Chars<int>(FirstMore(q, cond)) == SPACE + (SPACE + (Chars(ModeText(q, cond)) + SPACE + Chars("1=1")))
  {
    var mode := ModeText(q, cond);
    CharsConcat(" ", " " + mode + " 1=1");
    CharsConcat(" " + mode, " 1=1");
    CharsConcat(" ", mode);
    assert " 1=1" == " " + "1=1";
    CharsConcat(" ", "1=1");
    assert Chars<int>(" ") == SPACE;
    assert SPACE + Chars(mode) + (SPACE + Chars("1=1")) == SPACE + (Chars(mode) + SPACE + Chars("1=1"));
  }

  lemma FirstTextBinds(q: QueryCond, cond: string, args: seq<int>)
    requires Slots(cond) == |args|
    ensures Bind(FirstText(q, cond), args) ==
      Bind(cond, args) + (SPACE + (SPACE + (Chars(ModeText(q, cond)) + SPACE + Chars("1=1"))))
  {
    var more := FirstMore(q, cond);
    assert FirstText(q, cond) == cond + more && args + [] == args;
    NoMarks(more);
    BindUpTo(cond, args, more, []);
    BindPlain<int>(more, []);
    FirstMoreChars(q, cond);
  }

  /** The text of the first page reads as the condition whose meaning is proved. */
  lemma FirstTextReads(mean: Meaning, q: QueryCond, cond: string, args: seq<int>)
    requires Slots(cond) == |args| && Depth(Bind(cond, args)) == 0 && Read(Chars("1=1"), mean) == [OneIsOne()]
    ensures Condition(FirstText(q, cond), args, mean) == FirstCond(q, Condition(cond, args, mean))
  {
    var front, inner := Bind(cond, args), Chars<int>(ModeText(q, cond)) + SPACE + Chars("1=1");
    FirstTextBinds(q, cond, args);
    Associative(front, SPACE, SPACE + inner);
    SplitAtSpace(front, SPACE + inner, []);
    SpaceInFront(inner);
    SplitAtSpace(front, inner, []);
    ModeWords(q, cond, front, Chars("1=1"));
    ExtendedReads(mean, q, cond, args, Words(Chars("1=1")));
  }

  /** The comparison with the last row's value in place. */
  function Key(field: string, op: string, last: int): Bound {
    Chars(field + " " + op + " ") + [Val(last)]
  }

  function KeyText(mode: string, field: string, op: string): string {
    mode + " " + field + " " + op + " "
  }

  lemma KeySlots(mode: string, field: string, op: string)
    requires Slots(mode) == 0 && Slots(field) == 0 && Slots(op) == 0
    ensures Slots(KeyText(mode, field, op)) == 0
  {
    NoMarks(" ");
    SlotsConcat(mode, " ");
    SlotsConcat(mode + " ", field);
    SlotsConcat(mode + " " + field, " ");
    SlotsConcat(mode + " " + field + " ", op);
    SlotsConcat(mode + " " + field + " " + op, " ");
  }

  lemma KeyChars(mode: string, field: string, op: string)
    ensures Chars<int>(KeyText(mode, field, op)) == Chars(mode) + SPACE + Chars(field + " " + op + " ")
  {
    assert KeyText(mode, field, op) == mode + (" " + (field + " " + op + " "));
    CharsConcat(mode, " " + (field + " " + op + " "));
    CharsConcat(" ", field + " " + op + " ");
    assert Chars<int>(" ") == SPACE;
  }

  lemma KeyBinds(mode: string, field: string, op: string, last: int)
    requires Slots(mode) == 0 && Slots(field) == 0 && Slots(op) == 0
    ensures Bind(KeyText(mode, field, op) + "?", [last]) == Chars(mode) + SPACE + Key(field, op, last)
    ensures Slots(KeyText(mode, field, op) + "?") == 1
  {
    var plain := KeyText(mode, field, op);
    KeySlots(mode, field, op);
    KeyChars(mode, field, op);
    BindMark(last);
    assert plain + "?" + "" == plain + "?";
    BindWrap(plain, "?", "", [last]);
    assert Chars<int>(plain) + [Val(last)] + Chars("") == Chars(plain) + [Val(last)];
    Associative(Chars(mode) + SPACE, Chars(field + " " + op + " "), [Val(last)]);
  }

  lemma AppendedBinds(cond: string, args: seq<int>, key: string, last: int)
    requires Slots(cond) == |args| && Slots(key) == 1
    ensures Bind(cond + (" " + key + " AND 1=1"), args + [last]) ==
      Bind(cond, args) + (SPACE + Bind(key, [last]) + Chars(" AND 1=1"))
  {
    NoMarks(" ");
    NoMarks(" AND 1=1");
    BindWrap(" ", key, " AND 1=1", [last]);
    BindUpTo(cond, args, " " + key + " AND 1=1", [last]);
    assert Chars<int>(" ") == SPACE;
  }

  lemma NextTextBinds(q: QueryCond, cond: string, args: seq<int>, field: string, op: string, last: int)
    requires Slots(cond) == |args| && Slots(field) == 0 && Slots(op) == 0
    ensures Bind(NextText(q, cond, field, op), args + [last]) ==
      Bind(cond, args) + SPACE + (Chars(ModeText(q, cond)) + SPACE + Key(field, op, last)) + Chars(" AND 1=1")
  {
    var mode := ModeText(q, cond);
    NoMarks(mode);
    KeyBinds(mode, field, op, last);
    AppendedBinds(cond, args, KeyText(mode, field, op) + "?", last);
    NextIsAppended(q, cond, field, op);
    Regroup3(Bind(cond, args), SPACE, Chars(mode) + SPACE + Key(field, op, last), Chars(" AND 1=1"));
  }

  lemma NextIsAppended(q: QueryCond, cond: string, field: string, op: string)
    ensures NextText(q, cond, field, op) == cond + (" " + (KeyText(ModeText(q, cond), field, op) + "?") + " AND 1=1")
  {
    var mode := ModeText(q, cond);
    assert mode + " " + field + " " + op + " ?" == KeyText(mode, field, op) + "?";
    assert " " + "AND 1=1" == " AND 1=1";
    Regroup3(cond, " ", KeyText(mode, field, op) + "?", " AND 1=1");
    Associative(cond + " " + (KeyText(mode, field, op) + "?"), " ", "AND 1=1");
  }

  lemma Regroup3<T>(a: seq<T>, b: seq<T>, c: seq<T>, d: seq<T>)
    ensures a + (b + c + d) == a + b + c + d
  {
  }

  lemma NextTokens(q: QueryCond, c: CondText, field: string, operator: Operator, last: int)
    ensures NextCond(q, c, field, operator, last) ==
      Text(SqlWhere.Tokens(c) + Mode(q, c) + ([Beyond(field, operator, last)] + [And] + [OneIsOne()]))
  {
    var key := [Beyond(field, operator, last)];
    assert SqlWhere.Tokens(c) + (Mode(q, c) + key) + [And, OneIsOne()] ==
      SqlWhere.Tokens(c) + Mode(q, c) + (key + [And] + [OneIsOne()]);
  }

  lemma AndOneIsOne()
    ensures Chars<int>(" AND 1=1") == Chars(" AND ") + Chars("1=1")
  {
    assert " AND 1=1" == " AND " + "1=1";
    CharsConcat(" AND ", "1=1");
  }

  lemma Regroup<T>(x: seq<T>, l: seq<T>, k: seq<T>, a: seq<T>, o: seq<T>)
    ensures x + l + k + a + o == x + l + (k + a + o)
  {
  }

  lemma NextWords(q: QueryCond, cond: string, bound: Bound, key: Bound)
    ensures Words(bound + SPACE + (Chars(ModeText(q, cond)) + SPACE + key) + Chars(" AND 1=1")) ==
      Words(bound) + Link(q, cond) + (Words(key) + [AND] + Words(Chars("1=1")))
  {
    var front := bound + SPACE + (Chars(ModeText(q, cond)) + SPACE + key);
    AndOneIsOne();
    Associative(front, Chars(" AND "), Chars("1=1"));
    WordsAtAnd(front, Chars("1=1"));
    ModeWords(q, cond, bound, key);
    Regroup(Words(bound), Link(q, cond), Words(key), [AND], Words(Chars("1=1")));
  }

  /** And so does that of a later page, whatever the last row's value. */
  lemma NextTextReads(mean: Meaning, q: QueryCond, cond: string, args: seq<int>, field: string, op: string,
      operator: Operator, last: int)
    requires Slots(cond) == |args| && Slots(field) == 0 && Slots(op) == 0 && Depth(Bind(cond, args)) == 0
    requires Read(Chars("1=1"), mean) == [OneIsOne()]
    requires Read(Key(field, op, last), mean) == [Beyond(field, operator, last)] && Depth(Key(field, op, last)) == 0
    ensures Condition(NextText(q, cond, field, op), args + [last], mean) ==
      NextCond(q, Condition(cond, args, mean), field, operator, last)
  {
    var key := Words(Key(field, op, last));
    NextTextBinds(q, cond, args, field, op, last);
    NextWords(q, cond, Bind(cond, args), Key(field, op, last));
    WordsKeepDepth(Key(field, op, last), []);
    AndIsWord();
    ReadWordsAtAnd(key, AND, Words(Chars("1=1")), mean);
    ExtendedReads(mean, q, cond, args, key + [AND] + Words(Chars("1=1")));
    NextTokens(q, Condition(cond, args, mean), field, operator, last);
  }

  // What stands between the spaces of a statement.

  lemma {:induction false} SplitWord(w: Bound, begun: Bound)
    requires Char(' ') !in w && begun + w != []
    ensures Split(w, begun) == [begun + w]
  {
    if w == [] {
      assert begun + w == begun;
    } else {
      assert w[0] in w && forall x <- w[1..] :: x in w;
      SplitWord(w[1..], begun + [w[0]]);
      assert begun + [w[0]] + w[1..] == begun + w;
    }
  }

  lemma OneWord(w: string)
    requires w != "" && ' ' !in w
    ensures Words(Chars(w)) == [Chars(w)]
  {
    forall i | 0 <= i < |w|
      ensures Chars<int>(w)[i] != Char(' ')
    {
      assert w[i] in w;
    }
    SplitWord(Chars(w), []);
    assert [] + Chars<int>(w) == Chars(w);
  }

  /** Words with a space between them. */
  lemma WordsAtSpace(a: string, b: string)
    ensures Words(Chars(a + " " + b)) == Words(Chars(a)) + Words(Chars(b))
  {
    CharsConcat(a + " ", b);
    CharsConcat(a, " ");
    assert Chars<int>(" ") == SPACE;
    SplitAtSpace(Chars(a), Chars(b), []);
  }

  lemma TableWords(sqls: string, table: string, join: string)
    ensures Words(Chars(sqls + " " + table + " " + join + " WHERE")) ==
      Words(Chars(sqls)) + Words(Chars(table)) + Words(Chars(join)) + [Chars("WHERE")]
  {
    var front := sqls + " " + table;
    assert sqls + " " + table + " " + join + " WHERE" == (front + " " + join) + " " + "WHERE";
    WordsAtSpace(front + " " + join, "WHERE");
    WordsAtSpace(front, join);
    WordsAtSpace(sqls, table);
    OneWord("WHERE");
  }

  lemma SelectText(list: string)
    ensures WithSpaces(["SELECT ", list, " FROM "]) == "SELECT" + " " + (" " + list) + " " + " FROM" + " " + " "
  {
    assert ["SELECT ", list, " FROM "][1..] == [list, " FROM "] && [list, " FROM "][1..] == [" FROM "];
    assert [" FROM "][1..] == [] && WithSpaces([" FROM "]) == " FROM " + " " + WithSpaces([]);
    assert WithSpaces([list, " FROM "]) == list + " " + (" FROM " + " ");
  }

  /** A select begins with its fields, and names its table and its join in front of `WHERE`. */
  lemma SelectHeadReads(fields: seq<string>, table: string, join: string)
    ensures Words(Chars(WithSpaces(SelectHead(fields)) + table + " " + join + " WHERE")) ==
      [Chars("SELECT")] + Words(Chars(JoinSep(fields, ", "))) + [Chars("FROM")] + Words(Chars(table)) +
      Words(Chars(join)) + [Chars("WHERE")]
  {
    var list := JoinSep(fields, ", ");
    var front := "SELECT" + " " + (" " + list);
    var sqls := front + " " + " FROM" + " ";
    SelectText(list);
    TableWords(sqls, table, join);
    assert " FROM" == "" + " " + "FROM" && " " + list == "" + " " + list;
    assert sqls == front + " " + " FROM" + " " + "" && Words(Chars("")) == [];
    WordsAtSpace(front + " " + " FROM", "");
    WordsAtSpace(front, " FROM");
    WordsAtSpace("", "FROM");
    WordsAtSpace("SELECT", " " + list);
    WordsAtSpace("", list);
    OneWord("SELECT");
    OneWord("FROM");
  }

  /** A delete names its table. */
  lemma DeleteHeadReads(table: string)
    ensures Words(Chars(WithSpaces(DeleteHead()) + table + " " + "" + " WHERE")) ==
      [Chars("DELETE"), Chars("FROM")] + Words(Chars(table)) + [Chars("WHERE")]
  {
    var head := DeleteHead();
    var sqls := "DELETE" + " " + "FROM" + " ";
    assert head[1..] == [] && WithSpaces(head) == "DELETE FROM " + " " + WithSpaces([]) == sqls + " ";
    TableWords(sqls, table, "");
    assert sqls == "DELETE" + " " + "FROM" + " " + "" && Words(Chars("")) == [];
    WordsAtSpace("DELETE" + " " + "FROM", "");
    WordsAtSpace("DELETE", "FROM");
    OneWord("DELETE");
    OneWord("FROM");
  }

  /** A fixed condition as it is sent, word by word: the column, an equals sign, its value. */
  lemma FixedWords(cols: seq<string>, vals: seq<int>, i: nat)
    requires |cols| == |vals| && i < |cols|
    ensures Words(BoundFixed(cols, vals)[i]) == Words(Chars(cols[i])) + [Chars("="), [Val(vals[i])]]
  {
    assert cols[i] + " = " == cols[i] + " " + "=" + " ";
    WordAndValue(cols[i], "=", vals[i]);
  }

  lemma WordAndValue(a: string, w: string, v: int)
    requires w != "" && ' ' !in w
    ensures Words(Chars(a + " " + w + " ") + [Val(v)]) == Words(Chars(a)) + [Chars(w), [Val(v)]]
  {
    CharsConcat(a + " " + w, " ");
    assert Chars<int>(" ") == SPACE;
    SplitAtSpace(Chars(a + " " + w), [Val(v)], []);
    WordsAtSpace(a, w);
    OneWord(w);
    SplitWord([Val(v)], []);
    var value: Bound := [Val(v)];
    assert [] + value == value;
    assert Words(Chars(a)) + [Chars(w)] + [value] == Words(Chars(a)) + [Chars(w), value];
  }

  /** The IN part: its columns in parentheses, `IN`, and its values in parentheses. */
  lemma InWords(inCols: seq<string>, chunk: seq<seq<int>>)
    ensures Words(BoundIn(inCols, chunk)) == Words(Chars("(" + JoinSep(inCols, ", ") + ")")) + [Chars("IN")] +
      Words(Chars("(") + JoinSep(BoundTuples(chunk), Chars(",")) + Chars(")"))
  {
    var cols, values := "(" + JoinSep(inCols, ", ") + ")", JoinSep(BoundTuples(chunk), Chars(",")) + Chars(")");
    assert "(" + JoinSep(inCols, ", ") + ") IN (" == cols + " " + "IN" + " " + "(";
    CharsConcat(cols + " " + "IN" + " ", "(");
    CharsConcat(cols + " " + "IN", " ");
    assert Chars<int>(" ") == SPACE;
    assert BoundIn(inCols, chunk) == Chars(cols + " " + "IN") + SPACE + (Chars("(") + values);
    SplitAtSpace(Chars(cols + " " + "IN"), Chars("(") + values, []);
    WordsAtSpace(cols, "IN");
    OneWord("IN");
    assert Chars("(") + values == Chars("(") + JoinSep(BoundTuples(chunk), Chars(",")) + Chars(")");
  }

  /** The comparison with the last row's value: the order column, the operator, the value. */
  lemma KeyWords(field: string, op: string, last: int)
    requires op != "" && ' ' !in op
    ensures Words(Key(field, op, last)) == Words(Chars(field)) + [Chars(op), [Val(last)]]
  {
    WordAndValue(field, op, last);
  }

  // The end of a statement.

  lemma LimitWords(limit: int)
    ensures Words(Chars(" LIMIT " + Decimal(limit))) == [Chars("LIMIT"), Chars(Decimal(limit))]
  {
    DecimalReads(limit);
    OneWord("LIMIT");
    OneWord(Decimal(limit));
    assert " LIMIT" == "" + " " + "LIMIT" && " LIMIT " + Decimal(limit) == " LIMIT" + " " + Decimal(limit);
    WordsAtSpace("", "LIMIT");
    WordsAtSpace(" LIMIT", Decimal(limit));
  }

  lemma LimitOffsetWords(limit: int, offset: int)
    ensures Words(Chars(LimitOffset(limit, offset))) ==
      [Chars("LIMIT"), Chars(Decimal(limit)), Chars("OFFSET"), Chars(Decimal(offset))]
  {
    var front := " LIMIT " + Decimal(limit);
    LimitWords(limit);
    DecimalReads(offset);
    OneWord("OFFSET");
    OneWord(Decimal(offset));
    assert LimitOffset(limit, offset) == (front + " " + "OFFSET") + " " + Decimal(offset);
    WordsAtSpace(front, "OFFSET");
    WordsAtSpace(front + " " + "OFFSET", Decimal(offset));
  }

  lemma OrderWords(order: string)
    ensures Words(Chars(Tail(order, ""))) == Words(Chars(order))
  {
    if order != "" {
      assert Tail(order, "") == "" + " " + order;
      WordsAtSpace("", order);
    }
  }

  /** A select ends with its order, its limit and its offset, the numbers as they were given. */
  lemma TailReads(order: string, limit: int, offset: int)
    ensures Words(Chars(Tail(order, LimitOffset(limit, offset)))) ==
      Words(Chars(order)) + [Chars("LIMIT"), Chars(Decimal(limit)), Chars("OFFSET"), Chars(Decimal(offset))]
    ensures Number(Decimal(limit)) == limit && Number(Decimal(offset)) == offset
  {
    DecimalReads(limit);
    DecimalReads(offset);
    LimitOffsetWords(limit, offset);
    OrderWords(order);
    WordsAtSpace(Tail(order, ""), LimitOffset(limit, offset));
    assert Tail(order, LimitOffset(limit, offset)) == Tail(order, "") + " " + LimitOffset(limit, offset);
  }

  /** And a delete with its limit, if it has one. */
  lemma DeleteTailReads(limit: int)
    ensures Words(Chars(Tail("", DeleteLimit(limit)))) ==
      (if limit > 0 then [Chars("LIMIT"), Chars(Decimal(limit))] else [])
    ensures Number(Decimal(limit)) == limit
  {
    DecimalReads(limit);
    if limit > 0 {
      LimitWords(limit);
      assert DeleteLimit(limit) == " LIMIT " + Decimal(limit) + " " + "";
      WordsAtSpace(" LIMIT " + Decimal(limit), "");
      assert Tail("", DeleteLimit(limit)) == "" + " " + DeleteLimit(limit);
      WordsAtSpace("", DeleteLimit(limit));
    }
  }
}
