/** The fragment of SQL the search compiler emits: lexing, parsing with SQL's operator
    precedence, and evaluation in three-valued logic. */
module SqlExpr {
  import opened Text
  import opened Like

  // ----- tokens ---------------------------------------------------------------------------

  datatype Token = LParen | RParen | Comma | Word(text: string)

  predicate Delimiter(c: char) {
    c == ' ' || c == '(' || c == ')' || c == ','
  }

  predicate Plain(w: string) {
    w != "" && forall c | c in w :: !Delimiter(c)
  }

  function WordLength(s: string): (n: nat)
    ensures n <= |s|
    ensures s != "" && !Delimiter(s[0]) ==> n > 0
  {
    if s == "" || Delimiter(s[0]) then 0 else 1 + WordLength(s[1..])
  }

  function Mark(c: char): seq<Token>
    requires Delimiter(c)
  {
    match c case ' ' => [] case '(' => [LParen] case ')' => [RParen] case _ => [Comma]
  }

  /** Blank-separated words; parentheses and commas stand for themselves. */
  function Lex(s: string): seq<Token> {
    if s == "" then []
    else if Delimiter(s[0]) then Mark(s[0]) + Lex(s[1..])
    else [Word(s[..WordLength(s)])] + Lex(s[WordLength(s)..])
  }

  predicate StartsWithDelimiter(s: string) {
    s == "" || Delimiter(s[0])
  }

  lemma {:induction false} WordLengthOf(w: string, rest: string)
    requires (forall c | c in w :: !Delimiter(c)) && StartsWithDelimiter(rest)
    ensures WordLength(w + rest) == |w|
  {
    if w == "" {
      assert w + rest == rest;
    } else {
      assert (w + rest)[1..] == w[1..] + rest && (w + rest)[0] == w[0] && w[0] in w;
      WordLengthOf(w[1..], rest);
    }
  }

  lemma LexWord(w: string, rest: string)
    requires Plain(w) && StartsWithDelimiter(rest)
    ensures Lex(w + rest) == [Word(w)] + Lex(rest)
  {
    WordLengthOf(w, rest);
    assert (w + rest)[..|w|] == w && (w + rest)[|w|..] == rest && (w + rest)[0] == w[0] && w[0] in w;
  }

  /** A text that starts with a word starts its tokens with that word. */
  lemma LexFirstWord(s: string) returns (w: string, more: string)
    requires s != "" && !Delimiter(s[0])
    ensures s == w + more && |more| < |s| && Plain(w) && StartsWithDelimiter(more)
    ensures Lex(s) == [Word(w)] + Lex(more)
  {
    WordIsPlain(s);
    w, more := s[..WordLength(s)], s[WordLength(s)..];
  }

  lemma Assoc(x: seq<Token>, y: seq<Token>, z: seq<Token>)
    ensures x + (y + z) == x + y + z
  {
  }

  lemma LexMark(s: string, more: string)
    requires s != "" && Delimiter(s[0]) && s[1..] == more
    ensures Lex(s) == Mark(s[0]) + Lex(more)
  {
  }

  lemma {:induction false} LexAppendMark(a: string, b: string)
    requires a != "" && Delimiter(a[0]) && Lex(a[1..] + b) == Lex(a[1..]) + Lex(b)
    ensures Lex(a + b) == Lex(a) + Lex(b)
  {
    assert (a + b)[1..] == a[1..] + b && (a + b)[0] == a[0];
    LexMark(a + b, a[1..] + b);
    LexMark(a, a[1..]);
    Assoc(Mark(a[0]), Lex(a[1..]), Lex(b));
  }

  lemma {:induction false} LexAppendWord(w: string, more: string, b: string)
    requires Plain(w) && StartsWithDelimiter(more) && StartsWithDelimiter(b)
    requires Lex(more + b) == Lex(more) + Lex(b)
    ensures Lex(w + more + b) == Lex(w + more) + Lex(b)
  {
    assert w + more + b == w + (more + b);
    assert StartsWithDelimiter(more + b);
    LexWord(w, more);
    LexWord(w, more + b);
    Assoc([Word(w)], Lex(more), Lex(b));
  }

  /** Text that continues with a delimiter lexes piecewise. */
  lemma {:induction false} LexAppend(a: string, b: string)
    requires StartsWithDelimiter(b)
    ensures Lex(a + b) == Lex(a) + Lex(b)
    decreases |a|
  {
    if a == "" {
      assert a + b == b;
    } else if Delimiter(a[0]) {
      LexAppend(a[1..], b);
      LexAppendMark(a, b);
    } else {
      var w, more := LexFirstWord(a);
      LexAppend(more, b);
      LexAppendWord(w, more, b);
    }
  }

  lemma {:induction false} WordIsPlain(s: string)
    ensures forall c | c in s[..WordLength(s)] :: !Delimiter(c)
    ensures StartsWithDelimiter(s[WordLength(s)..])
  {
    if s != "" && !Delimiter(s[0]) {
      WordIsPlain(s[1..]);
      var n := WordLength(s);
      assert s[..n] == [s[0]] + s[1..][..n - 1];
      assert s[n..] == s[1..][n - 1..];
    }
  }

  lemma LexSpace(s: string)
    ensures Lex(" " + s) == Lex(s)
  {
    assert (" " + s)[1..] == s;
  }

  lemma LexOpen(s: string)
    ensures Lex("(" + s) == [LParen] + Lex(s)
  {
    assert ("(" + s)[1..] == s;
  }

  lemma LexClose(s: string)
    ensures Lex(")" + s) == [RParen] + Lex(s)
  {
    assert (")" + s)[1..] == s;
  }

  lemma LexComma(s: string)
    ensures Lex("," + s) == [Comma] + Lex(s)
  {
    assert ("," + s)[1..] == s;
  }

  // ----- expressions ------------------------------------------------------------------------

  datatype Op = Eq | Ne | Gt | Lt | LikeOp | ILikeOp | RegexOp | IRegexOp

  datatype Expr =
    | Compare(column: string, op: Op, param: nat)
    | CoalesceFalse(inner: Expr)
    | Not(negated: Expr)
    | And(left: Expr, right: Expr)
    | Or(left: Expr, right: Expr)
    | Const(value: bool)

  function Symbol(op: Op): string {
    match op
    case Eq => "="
    case Ne => "<>"
    case Gt => ">"
    case Lt => "<"
    case LikeOp => "LIKE"
    case ILikeOp => "ILIKE"
    case RegexOp => "~"
    case IRegexOp => "~*"
  }

  function Operator(w: string): Option<Op> {
    if w == "=" then Some(Eq)
    else if w == "<>" then Some(Ne)
    else if w == ">" then Some(Gt)
    else if w == "<" then Some(Lt)
    else if w == "LIKE" then Some(LikeOp)
    else if w == "ILIKE" then Some(ILikeOp)
    else if w == "~" then Some(RegexOp)
    else if w == "~*" then Some(IRegexOp)
    else None
  }

  predicate Keyword(w: string) {
    w == "NOT" || w == "AND" || w == "OR" || w == "COALESCE" || w == "TRUE" || w == "FALSE"
  }

  function Placeholder(w: string): Option<nat> {
    if |w| > 1 && w[0] == '$' && (forall c | c in w[1..] :: IsDigit(c)) then Some(Undec(w[1..])) else None
  }

  lemma PlaceholderOf(n: nat)
    ensures Placeholder("$" + Dec(n)) == Some(n) && Plain("$" + Dec(n))
  {
    UndecDec(n);
    assert ("$" + Dec(n))[1..] == Dec(n);
  }

  // ----- parsing: OR binds loosest, then AND, then NOT, then comparisons ---------------------

  datatype Parsed = Fail | Parsed(expr: Expr, rest: seq<Token>)

  predicate Starts(ts: seq<Token>, w: string) {
    ts != [] && ts[0] == Word(w)
  }

  function ParseOr(ts: seq<Token>): (r: Parsed)
    ensures r.Parsed? ==> |r.rest| < |ts|
    decreases |ts|, 3
  {
    var l := ParseAnd(ts);
    if l.Fail? then Fail else OrTail(l.expr, l.rest)
  }

  function OrTail(l: Expr, ts: seq<Token>): (r: Parsed)
    ensures r.Parsed? ==> |r.rest| <= |ts|
    decreases |ts|, 4
  {
    if !Starts(ts, "OR") then Parsed(l, ts)
    else
      var r := ParseAnd(ts[1..]);
      if r.Fail? then Fail else OrTail(Or(l, r.expr), r.rest)
  }

  function ParseAnd(ts: seq<Token>): (r: Parsed)
    ensures r.Parsed? ==> |r.rest| < |ts|
    decreases |ts|, 2
  {
    var l := ParseNot(ts);
    if l.Fail? then Fail else AndTail(l.expr, l.rest)
  }

  function AndTail(l: Expr, ts: seq<Token>): (r: Parsed)
    ensures r.Parsed? ==> |r.rest| <= |ts|
    decreases |ts|, 4
  {
    if !Starts(ts, "AND") then Parsed(l, ts)
    else
      var r := ParseNot(ts[1..]);
      if r.Fail? then Fail else AndTail(And(l, r.expr), r.rest)
  }

  function ParseNot(ts: seq<Token>): (r: Parsed)
    ensures r.Parsed? ==> |r.rest| < |ts|
    decreases |ts|, 1
  {
    if Starts(ts, "NOT") then
      var r := ParseNot(ts[1..]);
      if r.Fail? then Fail else Parsed(Not(r.expr), r.rest)
    else ParsePrimary(ts)
  }

  function ParsePrimary(ts: seq<Token>): (r: Parsed)
    ensures r.Parsed? ==> |r.rest| < |ts|
    decreases |ts|, 0
  {
    if ts == [] then Fail
    else if ts[0] == LParen then
      var r := ParseOr(ts[1..]);
      if r.Parsed? && r.rest != [] && r.rest[0] == RParen then Parsed(r.expr, r.rest[1..]) else Fail
    else if Starts(ts, "COALESCE") && |ts| > 1 && ts[1] == LParen then
      var r := ParseOr(ts[2..]);
      if r.Parsed? && |r.rest| >= 3 && r.rest[..3] == [Comma, Word("FALSE"), RParen]
      then Parsed(CoalesceFalse(r.expr), r.rest[3..])
      else Fail
    else if Starts(ts, "TRUE") then Parsed(Const(true), ts[1..])
    else if Starts(ts, "FALSE") then Parsed(Const(false), ts[1..])
    else if |ts| >= 3 && ts[0].Word? && ts[1].Word? && ts[2].Word? && !Keyword(ts[0].text)
            && Operator(ts[1].text).Some? && Placeholder(ts[2].text).Some? then
      Parsed(Compare(ts[0].text, Operator(ts[1].text).value, Placeholder(ts[2].text).value), ts[3..])
    else Fail
  }

  /** A whole clause: nothing may be left over. */
  function Parse(s: string): Option<Expr> {
    var r := ParseOr(Lex(s));
    if r.Parsed? && r.rest == [] then Some(r.expr) else None
  }

  // ----- evaluation in three-valued logic: section 6.34 of ISO/IEC 9075-2:2003 -----------------

  datatype Truth = True | False | Unknown

  datatype SqlValue = Text(text: string) | Num(num: int)

  /** A joined result row: None is NULL. */
  type DbRow = string -> Option<SqlValue>

  /** Server behaviour this model leaves open: case folding and the regex operators. */
  datatype Engine = Engine(
    fold: char -> string, regex: (string, string) -> bool, iregex: (string, string) -> bool)

  function Holds(e: Engine, op: Op, cell: SqlValue, bind: SqlValue): Truth {
    match (cell, bind)
    case (Num(a), Num(b)) =>
      (match op
       case Eq => TruthOf(a == b)
       case Ne => TruthOf(a != b)
       case Gt => TruthOf(a > b)
       case Lt => TruthOf(a < b)
       case _ => Unknown)
    case (Text(a), Text(b)) =>
      (match op
       case Eq => TruthOf(a == b)
       case LikeOp => TruthOf(Matches(b, a))
       case ILikeOp => TruthOf(ILike(e.fold, a, b))
       case RegexOp => TruthOf(e.regex(a, b))
       case IRegexOp => TruthOf(e.iregex(a, b))
       case _ => Unknown)
    case _ => Unknown
  }

  function TruthOf(b: bool): Truth { if b then True else False }

  function Eval(x: Expr, e: Engine, row: DbRow, binds: seq<SqlValue>): Truth {
    match x
    case Compare(column, op, param) =>
      var cell := row(column);
      if cell.None? || !(1 <= param <= |binds|) then Unknown else Holds(e, op, cell.value, binds[param - 1])
    case CoalesceFalse(inner) =>
      var v := Eval(inner, e, row, binds);
      if v == Unknown then False else v
    case Not(inner) =>
      (match Eval(inner, e, row, binds) case True => False case False => True case Unknown => Unknown)
    case And(l, r) =>
      var a, b := Eval(l, e, row, binds), Eval(r, e, row, binds);
      if a == False || b == False then False else if a == True && b == True then True else Unknown
    case Or(l, r) =>
      var a, b := Eval(l, e, row, binds), Eval(r, e, row, binds);
      if a == True || b == True then True else if a == False && b == False then False else Unknown
    case Const(b) => TruthOf(b)
  }

  /** A WHERE clause selects a row when it parses and is TRUE of it. */
  predicate SqlSelects(clause: string, e: Engine, row: DbRow, binds: seq<SqlValue>) {
    match Parse(clause)
    case None => false
    case Some(x) => Eval(x, e, row, binds) == True
  }

  // ----- parsing what is printed -----------------------------------------------------------------

  predicate Closed(rest: seq<Token>) {
    rest == [] || rest[0] == RParen || rest[0] == Comma
  }

  lemma PrimaryIsOr(ts: seq<Token>, x: Expr, rest: seq<Token>)
    requires ParsePrimary(ts) == Parsed(x, rest) && !Starts(ts, "NOT") && Closed(rest)
    ensures ParseOr(ts) == Parsed(x, rest)
  {
    assert ParseNot(ts) == Parsed(x, rest);
    assert AndTail(x, rest) == Parsed(x, rest);
    assert ParseAnd(ts) == Parsed(x, rest);
  }

  function ComparisonTokens(column: string, op: Op, n: nat): seq<Token> {
    [Word(column), Word(Symbol(op)), Word("$" + Dec(n))]
  }

  lemma ParseComparison(column: string, op: Op, n: nat, rest: seq<Token>)
    requires !Keyword(column)
    ensures ParsePrimary(ComparisonTokens(column, op, n) + rest) == Parsed(Compare(column, op, n), rest)
    ensures !Starts(ComparisonTokens(column, op, n) + rest, "NOT")
  {
    PlaceholderOf(n);
    var ts := ComparisonTokens(column, op, n) + rest;
    assert ts[3..] == rest;
  }

  /** Parentheses shield whatever they enclose. */
  lemma ParseParens(inner: seq<Token>, x: Expr, rest: seq<Token>)
    requires ParseOr(inner + ([RParen] + rest)) == Parsed(x, [RParen] + rest)
    ensures ParsePrimary([LParen] + inner + [RParen] + rest) == Parsed(x, rest)
  {
    var ts := [LParen] + inner + [RParen] + rest;
    assert ts[1..] == inner + ([RParen] + rest);
    assert ([RParen] + rest)[1..] == rest;
  }

  lemma ParseCoalesce(inner: seq<Token>, x: Expr, rest: seq<Token>)
    requires ParseOr(inner + ([Comma, Word("FALSE"), RParen] + rest)) ==
             Parsed(x, [Comma, Word("FALSE"), RParen] + rest)
    ensures ParsePrimary([Word("COALESCE"), LParen] + inner + ([Comma, Word("FALSE"), RParen] + rest))
            == Parsed(CoalesceFalse(x), rest)
  {
    var tail := [Comma, Word("FALSE"), RParen] + rest;
    var ts := [Word("COALESCE"), LParen] + inner + tail;
    assert tail[..3] == [Comma, Word("FALSE"), RParen] && tail[3..] == rest;
    assert ts[2..] == inner + tail;
  }

  lemma NotPrimaryIsOr(ts: seq<Token>, x: Expr, rest: seq<Token>)
    requires ParsePrimary(ts) == Parsed(x, rest) && !Starts(ts, "NOT") && Closed(rest)
    ensures ParseOr([Word("NOT")] + ts) == Parsed(Not(x), rest)
  {
    assert ([Word("NOT")] + ts)[1..] == ts;
    assert ParseNot(ts) == Parsed(x, rest);
    assert ParseNot([Word("NOT")] + ts) == Parsed(Not(x), rest);
    assert AndTail(Not(x), rest) == Parsed(Not(x), rest);
    assert ParseAnd([Word("NOT")] + ts) == Parsed(Not(x), rest);
  }
}
