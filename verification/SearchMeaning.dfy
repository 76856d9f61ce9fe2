/** What a compiled search clause means to the server that parses it. */
module SearchMeaning {
  import opened Text
  import opened Like
  import opened SqlExpr
  import opened Search

  // ----- the rules' own meaning: two-valued, no SQL ---------------------------------------------

  /** The column a request's field name asks about: `f` is the file, `u` and `g` the names of
      its owner and group, `s` the totals of a directory. */
  function SearchedColumn(field: string): string {
    match field
    case "path" => "f.path"
    case "uid" => "f.uid"
    case "gid" => "f.gid"
    case "user" => "u.name"
    case "group" => "g.name"
    case "file_type" => "f.file_type"
    case "size_bytes" => "f.size_bytes"
    case "mtime" => "f.mtime"
    case "atime" => "f.atime"
    case "ctime" => "f.ctime"
    case "dir_total_size" => "s.total_size_bytes"
    case "dir_file_count" => "s.file_count"
    case "dir_mtime_first" => "s.mtime_first"
    case "dir_mtime_last" => "s.mtime_last"
    case "dir_atime_first" => "s.atime_first"
    case "dir_atime_last" => "s.atime_last"
    case "dir_ctime_first" => "s.ctime_first"
    case "dir_ctime_last" => "s.ctime_last"
    case _ => ""
  }

  predicate IsTextField(field: string) {
    field == "path" || field == "user" || field == "group"
  }

  predicate TakesSizeUnits(field: string) {
    field == "size_bytes" || field == "dir_total_size"
  }

  predicate SaysOr(connector: string) {
    connector == "OR" || connector == "Or" || connector == "oR" || connector == "or"
  }

  /** Whether a row matches a rule, read as the person who wrote it reads it; a missing
      value matches nothing. */
  ghost predicate PlainMatch(e: Engine, parse: NumberParser, rule: SearchRule, row: DbRow) {
    var cell := row(SearchedColumn(rule.field));
    cell.Some? && CellMatches(e, parse, rule, cell.value)
  }

  ghost predicate CellMatches(e: Engine, parse: NumberParser, rule: SearchRule, cell: SqlValue) {
    match cell
    case Num(a) =>
      !IsTextField(rule.field) && NumberMatches(a, rule.operator, parse(TakesSizeUnits(rule.field), rule.value))
    case Text(s) => IsTextField(rule.field) && TextMatches(e, s, rule.operator, rule.value)
  }

  predicate NumberMatches(a: int, operator: string, n: Option<int>) {
    n.Some? &&
    match operator
    case "equals" => a == n.value
    case "not_equals" => a != n.value
    case "gt" => a > n.value
    case "lt" => a < n.value
    case _ => false
  }

  ghost predicate TextMatches(e: Engine, s: string, operator: string, value: string) {
    match operator
    case "equals" => s == value
    case "contains" => Contains(Fold(e.fold, s), Fold(e.fold, value))
    case "starts_with" => Fold(e.fold, value) <= Fold(e.fold, s)
    case "ends_with" => EndsWith(Fold(e.fold, s), Fold(e.fold, value))
    case "regex" => e.regex(s, value)
    case "regex_i" => e.iregex(s, value)
    case _ => false
  }

  ghost predicate RuleMatches(e: Engine, parse: NumberParser, rule: SearchRule, row: DbRow) {
    PlainMatch(e, parse, rule, row) != rule.negate
  }

  /** A maximal run of rules joined by AND. */
  ghost predicate IsRun(isOr: seq<bool>, a: nat, b: nat) {
    && a < b <= |isOr|
    && (a == 0 || isOr[a])
    && (b == |isOr| || isOr[b])
    && forall k | a < k < b :: !isOr[k]
  }

  ghost predicate AllOf(matched: seq<bool>, a: nat, b: nat)
    requires a <= b <= |matched|
  {
    forall k | a <= k < b :: matched[k]
  }

  /** Some AND-run matches throughout. */
  ghost predicate SomeRun(isOr: seq<bool>, matched: seq<bool>)
    requires |isOr| == |matched|
  {
    exists a, b :: IsRun(isOr, a, b) && AllOf(matched, a, b)
  }

  ghost function MatchedRules(e: Engine, parse: NumberParser, rules: seq<SearchRule>, row: DbRow): seq<bool> {
    seq(|rules|, i requires 0 <= i < |rules| => RuleMatches(e, parse, rules[i], row))
  }

  function OrFlags(rules: seq<SearchRule>): seq<bool> {
    seq(|rules|, i requires 0 <= i < |rules| => SaysOr(rules[i].connector))
  }

  ghost predicate RulesSelect(e: Engine, parse: NumberParser, rules: seq<SearchRule>, row: DbRow) {
    SomeRun(OrFlags(rules), MatchedRules(e, parse, rules, row))
  }

  // ----- one rule ------------------------------------------------------------------------------------

  function RuleExpr(item: Item, n: nat): Expr {
    var c := Compare(item.cond.column, item.cond.op, n);
    if item.negate then Not(CoalesceFalse(c)) else c
  }

  function RuleTokens(item: Item, n: nat): seq<Token> {
    var c := [LParen] + ComparisonTokens(item.cond.column, item.cond.op, n) + [RParen];
    if item.negate then NegatedTokens(c) else c
  }

  /** The allowlist, read off the names of the request. */
  lemma FieldsAreNamed(name: string)
    requires FieldOf(name).Some?
    ensures FieldOf(name).value.Column() == SearchedColumn(name)
  {
  }

  lemma FieldKinds(name: string)
    requires FieldOf(name).Some?
    ensures FieldOf(name).value.Numeric() <==> !IsTextField(name)
    ensures FieldOf(name).value.SizeHuman() <==> TakesSizeUnits(name)
  {
  }

  lemma OrIsSaid(connector: string)
    ensures IsOr(connector) <==> SaysOr(connector)
  {
    if |connector| == 2 {
      assert connector == [connector[0], connector[1]];
    }
  }

  lemma PatternsMean(e: Engine, value: string, s: string)
    requires FoldKeepsSpecials(e.fold)
    ensures Holds(e, ILikeOp, Text(s), Text("%" + EscapeLike(value) + "%")) == True <==>
            Contains(Fold(e.fold, s), Fold(e.fold, value))
    ensures Holds(e, ILikeOp, Text(s), Text(EscapeLike(value) + "%")) == True <==>
            Fold(e.fold, value) <= Fold(e.fold, s)
    ensures Holds(e, ILikeOp, Text(s), Text("%" + EscapeLike(value))) == True <==>
            EndsWith(Fold(e.fold, s), Fold(e.fold, value))
  {
    ILikeIsLiteral(e.fold, value, s);
  }

  lemma TextConditionMeans(e: Engine, column: string, operator: string, value: string, s: string)
    requires FoldKeepsSpecials(e.fold) && TextCondition(column, operator, value).Some?
    ensures var c := TextCondition(column, operator, value).value;
            Holds(e, c.op, Text(s), c.bind) == True <==> TextMatches(e, s, operator, value)
  {
    match operator
    case "contains" | "starts_with" | "ends_with" => PatternsMean(e, value, s);
    case _ =>
  }

  lemma ConditionColumn(parse: NumberParser, f: Field, operator: string, value: string)
    requires ConditionOf(parse, f, operator, value).Ok?
    ensures ConditionOf(parse, f, operator, value).value.column == f.Column()
  {
  }

  lemma NumberConditionMeans(e: Engine, operator: string, a: int, n: int)
    requires NumericOp(operator).Some?
    ensures Holds(e, NumericOp(operator).value, Num(a), Num(n)) == True <==> NumberMatches(a, operator, Some(n))
  {
  }

  lemma CellConditionMeans(e: Engine, parse: NumberParser, rule: SearchRule, cell: SqlValue)
    requires FoldKeepsSpecials(e.fold) && CompileRule(parse, rule).Ok?
    ensures var c := CompileRule(parse, rule).value;
            Holds(e, c.op, cell, c.bind) == True <==> CellMatches(e, parse, rule, cell)
  {
    var f := FieldOf(rule.field).value;
    FieldKinds(rule.field);
    if f.Numeric() {
      if cell.Num? {
        NumberConditionMeans(e, rule.operator, cell.num, parse(f.SizeHuman(), rule.value).value);
      }
    } else if cell.Text? {
      TextConditionMeans(e, f.Column(), rule.operator, rule.value, cell.text);
    }
  }

  lemma ConditionMeans(e: Engine, parse: NumberParser, rule: SearchRule, row: DbRow, n: nat, binds: seq<SqlValue>)
    requires FoldKeepsSpecials(e.fold) && CompileRule(parse, rule).Ok?
    requires 1 <= n <= |binds| && binds[n - 1] == CompileRule(parse, rule).value.bind
    ensures var c := CompileRule(parse, rule).value;
            Eval(Compare(c.column, c.op, n), e, row, binds) == True <==> PlainMatch(e, parse, rule, row)
  {
    var f := FieldOf(rule.field).value;
    var cell := row(f.Column());
    FieldsAreNamed(rule.field);
    ConditionColumn(parse, f, rule.operator, rule.value);
    if cell.Some? {
      CellConditionMeans(e, parse, rule, cell.value);
    }
  }

  /** A rule's predicate is TRUE exactly when the rule matches; negation takes in exactly
      the rows the plain rule leaves out, NULL columns included. */
  lemma RuleMeans(e: Engine, parse: NumberParser, rule: SearchRule, row: DbRow, n: nat, binds: seq<SqlValue>)
    requires FoldKeepsSpecials(e.fold) && CompileRule(parse, rule).Ok?
    requires 1 <= n <= |binds| && binds[n - 1] == CompileRule(parse, rule).value.bind
    ensures var item := Item(IsOr(rule.connector), CompileRule(parse, rule).value, rule.negate);
            Eval(RuleExpr(item, n), e, row, binds) == True <==> RuleMatches(e, parse, rule, row)
  {
    ConditionMeans(e, parse, rule, row, n, binds);
  }

  // ----- which rules compile --------------------------------------------------------------------------

  predicate Searchable(field: string) {
    || field == "path" || field == "user" || field == "group"
    || field == "uid" || field == "gid" || field == "file_type" || field == "size_bytes"
    || field == "mtime" || field == "atime" || field == "ctime"
    || field == "dir_total_size" || field == "dir_file_count"
    || field == "dir_mtime_first" || field == "dir_mtime_last" || field == "dir_atime_first"
    || field == "dir_atime_last" || field == "dir_ctime_first" || field == "dir_ctime_last"
  }

  predicate TextOperates(operator: string) {
    || operator == "equals" || operator == "contains" || operator == "starts_with" || operator == "ends_with"
    || operator == "regex" || operator == "regex_i"
  }

  predicate NumberOperates(operator: string) {
    operator == "equals" || operator == "not_equals" || operator == "gt" || operator == "lt"
  }

  lemma SearchableFields(name: string)
    ensures FieldOf(name).Some? <==> Searchable(name)
  {
  }

  lemma OperatorsOf(column: string, operator: string, value: string)
    ensures NumericOp(operator).Some? <==> NumberOperates(operator)
    ensures TextCondition(column, operator, value).Some? <==> TextOperates(operator)
  {
  }

  /** Which rules compile, and what is said of one that does not: an unknown field before a
      value that is no number, and that before an operator the field does not have. */
  lemma CompilesWhenAcceptable(parse: NumberParser, rule: SearchRule)
    ensures var r := CompileRule(parse, rule);
            var number := parse(TakesSizeUnits(rule.field), rule.value);
            if !Searchable(rule.field) then r == Err(UnknownField(rule.field))
            else if IsTextField(rule.field) then
              if TextOperates(rule.operator) then r.Ok? else r == Err(TextOperator(rule.operator))
            else if number.None? then r == Err(InvalidValue(SearchedColumn(rule.field)))
            else if NumberOperates(rule.operator) then r.Ok? else r == Err(NumericOperator(rule.operator))
  {
    SearchableFields(rule.field);
    if Searchable(rule.field) {
      FieldsAreNamed(rule.field);
      FieldKinds(rule.field);
    }
    OperatorsOf(SearchedColumn(rule.field), rule.operator, rule.value);
  }

  // ----- lexing ---------------------------------------------------------------------------------------

  predicate GoodColumn(column: string) {
    Plain(column) && !Keyword(column) && column[0] != '$'
  }

  lemma OwnColumnsAreGood()
    ensures GoodColumn("f.path") && GoodColumn("f.uid") && GoodColumn("f.gid")
    ensures GoodColumn("u.name") && GoodColumn("g.name")
  {
  }

  lemma FileColumnsAreGood()
    ensures GoodColumn("f.file_type") && GoodColumn("f.size_bytes")
    ensures GoodColumn("f.mtime") && GoodColumn("f.atime") && GoodColumn("f.ctime")
  {
  }

  lemma DirTotalsAreGood()
    ensures GoodColumn("s.total_size_bytes") && GoodColumn("s.file_count")
  {
  }

  lemma DirFirstsAreGood()
    ensures GoodColumn("s.mtime_first") && GoodColumn("s.atime_first") && GoodColumn("s.ctime_first")
  {
  }

  lemma DirLastsAreGood()
    ensures GoodColumn("s.mtime_last") && GoodColumn("s.atime_last") && GoodColumn("s.ctime_last")
  {
  }

  lemma ColumnsAreGood(f: Field)
    ensures GoodColumn(f.Column())
  {
    match f
    case Path | UserId | GroupId | User | Group => OwnColumnsAreGood();
    case FileType | SizeBytes | MTime | ATime | CTime => FileColumnsAreGood();
    case DirTotalSize | DirFileCount => DirTotalsAreGood();
    case DirMTimeFirst | DirATimeFirst | DirCTimeFirst => DirFirstsAreGood();
    case DirMTimeLast | DirATimeLast | DirCTimeLast => DirLastsAreGood();
  }

  lemma CompiledColumnsAreGood(parse: NumberParser, rule: SearchRule)
    requires CompileRule(parse, rule).Ok?
    ensures GoodColumn(CompileRule(parse, rule).value.column)
  {
    ColumnsAreGood(FieldOf(rule.field).value);
  }

  lemma SymbolsArePlain(op: Op)
    ensures Plain(Symbol(op))
  {
  }

  lemma LexWordThenBlank(w: string, s: string)
    requires Plain(w)
    ensures Lex(w + (" " + s)) == [Word(w)] + Lex(s)
  {
    LexWord(w, " " + s);
    LexSpace(s);
  }

  lemma LexOneWord(w: string)
    requires Plain(w)
    ensures Lex(w) == [Word(w)]
  {
    LexWord(w, "");
    assert w + "" == w;
  }

  lemma LexComparison(column: string, op: Op, n: nat)
    requires Plain(column)
    ensures Lex(ComparisonText(column, op, n)) == ComparisonTokens(column, op, n)
  {
    PlaceholderOf(n);
    SymbolsArePlain(op);
    LexOneWord("$" + Dec(n));
    LexWordThenBlank(Symbol(op), "$" + Dec(n));
    LexWordThenBlank(column, Symbol(op) + (" " + ("$" + Dec(n))));
  }

  lemma LexCondition(c: Condition, n: nat)
    requires Plain(c.column)
    ensures Lex(ConditionText(c, n)) == [LParen] + ComparisonTokens(c.column, c.op, n) + [RParen]
  {
    var cmp := ComparisonText(c.column, c.op, n);
    LexComparison(c.column, c.op, n);
    LexOpen(cmp + ")");
    LexAppend(cmp, ")");
    LexClose("");
  }

  function NegatedTokens(c: seq<Token>): seq<Token> {
    [LParen] + ([Word("NOT")] + ([Word("COALESCE"), LParen] + c + [Comma, Word("FALSE"), RParen])) + [RParen]
  }

  lemma LexCommaWord(w: string, s: string)
    requires Plain(w) && StartsWithDelimiter(s)
    ensures Lex("," + (" " + (w + s))) == [Comma, Word(w)] + Lex(s)
  {
    LexComma(" " + (w + s));
    LexSpace(w + s);
    LexWord(w, s);
  }

  lemma LexClosers()
    ensures Lex(")" + ")") == [RParen, RParen]
  {
    LexClose(")");
    LexClose("");
  }

  lemma LexCall(w: string, s: string)
    requires Plain(w)
    ensures Lex(w + ("(" + s)) == [Word(w), LParen] + Lex(s)
  {
    LexOpen(s);
    LexWord(w, "(" + s);
  }

  lemma LexWrapped(w: string, rest: string)
    requires Plain(w)
    ensures Lex("(" + (w + (" " + rest))) == [LParen, Word(w)] + Lex(rest)
  {
    LexOpen(w + (" " + rest));
    LexWordThenBlank(w, rest);
  }

  lemma LexFallback(w: string)
    requires Plain(w)
    ensures Lex("," + (" " + (w + (")" + ")")))) == [Comma, Word(w), RParen, RParen]
  {
    LexClosers();
    LexCommaWord(w, ")" + ")");
  }

  /** The negation wrapper, for any words in the place of the keywords. */
  lemma LexWrapper(w1: string, w2: string, cond: string, tail: string)
    requires Plain(w1) && Plain(w2) && StartsWithDelimiter(tail)
    ensures Lex("(" + (w1 + (" " + (w2 + ("(" + (cond + tail)))))) ==
            [LParen, Word(w1)] + ([Word(w2), LParen] + (Lex(cond) + Lex(tail)))
  {
    LexAppend(cond, tail);
    LexCall(w2, cond + tail);
    LexWrapped(w1, w2 + ("(" + (cond + tail)));
  }

  lemma LexNegated(cond: string)
    ensures Lex(Negated(cond)) == NegatedTokens(Lex(cond))
  {
    KeywordsArePlain();
    LexFallback("FALSE");
    LexWrapper("NOT", "COALESCE", cond, "," + (" " + ("FALSE" + (")" + ")"))));
  }

  lemma KeywordsArePlain()
    ensures Plain("NOT") && Plain("COALESCE") && Plain("FALSE") && Plain("TRUE") && Plain("AND") && Plain("OR")
  {
  }

  lemma LexRule(item: Item, n: nat)
    requires GoodColumn(item.cond.column)
    ensures Lex(RuleText(item, n)) == RuleTokens(item, n)
  {
    LexCondition(item.cond, n);
    LexNegated(ConditionText(item.cond, n));
  }
}
