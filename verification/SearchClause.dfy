/** The whole clause: its text lexes, parses with SQL precedence, and selects a row exactly
    when some AND-run of rules matches it. */
module SearchClause {
  import opened Text
  import opened Like
  import opened SqlExpr
  import opened Search
  import opened SearchMeaning

  predicate GoodItems(items: seq<Item>) {
    forall i | 0 <= i < |items| :: GoodColumn(items[i].cond.column)
  }

  // ----- the tokens of a clause --------------------------------------------------------------

  /** Connector and tokens of rule k and every later one. */
  function TailTokens(items: seq<Item>, k: nat): seq<Token>
    requires k <= |items|
    decreases |items| - k
  {
    if k == |items| then []
    else [Word(ConnectorWord(items[k]))] + (RuleTokens(items[k], k + 1) + TailTokens(items, k + 1))
  }

  function WhereTokens(items: seq<Item>): seq<Token>
    requires items != []
  {
    RuleTokens(items[0], 1) + TailTokens(items, 1)
  }

  lemma {:induction false} TailSnoc(init: seq<Item>, last: Item, k: nat)
    requires k <= |init|
    ensures TailTokens(init + [last], k) ==
            TailTokens(init, k) + ([Word(ConnectorWord(last))] + RuleTokens(last, |init| + 1))
    decreases |init| - k
  {
    var items := init + [last];
    if k == |init| {
      assert TailTokens(items, k + 1) == [];
      assert RuleTokens(last, |init| + 1) + [] == RuleTokens(last, |init| + 1);
    } else {
      TailSnoc(init, last, k + 1);
      var w, r := [Word(ConnectorWord(init[k]))], RuleTokens(init[k], k + 1);
      var t, more := TailTokens(init, k + 1), [Word(ConnectorWord(last))] + RuleTokens(last, |init| + 1);
      Assoc(r, t, more);
      Assoc(w, r + t, more);
    }
  }

  lemma LexJoined(a: string, w: string, r: string)
    requires Plain(w)
    ensures Lex(a + (" " + w + " ") + r) == Lex(a) + ([Word(w)] + Lex(r))
  {
    assert a + (" " + w + " ") + r == a + (" " + (w + (" " + r)));
    LexAppend(a, " " + (w + (" " + r)));
    LexSpace(w + (" " + r));
    LexWordThenBlank(w, r);
  }

  lemma WhereTokensSnoc(init: seq<Item>, last: Item)
    requires init != []
    ensures WhereTokens(init + [last]) ==
            WhereTokens(init) + ([Word(ConnectorWord(last))] + RuleTokens(last, |init| + 1))
  {
    TailSnoc(init, last, 1);
    Assoc(RuleTokens(init[0], 1), TailTokens(init, 1), [Word(ConnectorWord(last))] + RuleTokens(last, |init| + 1));
  }

  lemma WhereTextSnoc(init: seq<Item>, last: Item)
    ensures WhereText(init + [last]) ==
            if init == [] then RuleText(last, 1)
            else WhereText(init) + (" " + ConnectorWord(last) + " ") + RuleText(last, |init| + 1)
  {
    assert (init + [last])[..|init|] == init;
    if init == [] { assert "" + "" + RuleText(last, 1) == RuleText(last, 1); }
  }

  lemma LexOneRule(rule: Item)
    requires GoodColumn(rule.cond.column)
    ensures Lex(WhereText([rule])) == WhereTokens([rule])
  {
    LexRule(rule, 1);
    WhereTextSnoc([], rule);
    assert [] + [rule] == [rule];
    assert TailTokens([rule], 1) == [];
    assert RuleTokens(rule, 1) + [] == RuleTokens(rule, 1);
  }

  lemma LexOneMore(init: seq<Item>, last: Item)
    requires init != [] && GoodColumn(last.cond.column)
    ensures Lex(WhereText(init + [last])) ==
            Lex(WhereText(init)) + ([Word(ConnectorWord(last))] + RuleTokens(last, |init| + 1))
  {
    LexRule(last, |init| + 1);
    KeywordsArePlain();
    WhereTextSnoc(init, last);
    LexJoined(WhereText(init), ConnectorWord(last), RuleText(last, |init| + 1));
  }

  lemma {:induction false} LexWhere(items: seq<Item>)
    requires items != [] && GoodItems(items)
    ensures Lex(WhereText(items)) == WhereTokens(items)
  {
    var n := |items| - 1;
    var init, last := items[..n], items[n];
    assert items == init + [last];
    if n == 0 {
      assert items == [last];
      LexOneRule(last);
    } else {
      LexWhere(init);
      LexOneMore(init, last);
      WhereTokensSnoc(init, last);
    }
  }

  // ----- parsing it ---------------------------------------------------------------------------------

  lemma PlainRuleParses(column: string, op: Op, n: nat, more: seq<Token>)
    requires GoodColumn(column)
    ensures ParsePrimary(([LParen] + ComparisonTokens(column, op, n) + [RParen]) + more) ==
            Parsed(Compare(column, op, n), more)
  {
    var cmp := ComparisonTokens(column, op, n);
    ParseComparison(column, op, n, [RParen] + more);
    PrimaryIsOr(cmp + ([RParen] + more), Compare(column, op, n), [RParen] + more);
    ParseParens(cmp, Compare(column, op, n), more);
  }

  lemma {:induction false} NegatedInnerParses(c: seq<Token>, x: Expr, after: seq<Token>)
    requires c != [] && c[0] == LParen && Closed(after)
    requires ParsePrimary(c + ([Comma, Word("FALSE"), RParen] + after)) ==
             Parsed(x, [Comma, Word("FALSE"), RParen] + after)
    ensures ParseOr([Word("NOT")] + ([Word("COALESCE"), LParen] + c + ([Comma, Word("FALSE"), RParen] + after)))
            == Parsed(Not(CoalesceFalse(x)), after)
  {
    var tail := [Comma, Word("FALSE"), RParen] + after;
    PrimaryIsOr(c + tail, x, tail);
    ParseCoalesce(c, x, after);
    NotPrimaryIsOr([Word("COALESCE"), LParen] + c + tail, CoalesceFalse(x), after);
  }

  lemma {:induction false} NegatedRuleParses(c: seq<Token>, x: Expr, more: seq<Token>)
    requires c != [] && c[0] == LParen
    requires forall rest :: ParsePrimary(c + rest) == Parsed(x, rest)
    ensures ParsePrimary(NegatedTokens(c) + more) == Parsed(Not(CoalesceFalse(x)), more)
  {
    var after := [RParen] + more;
    var close := [Comma, Word("FALSE"), RParen];
    NegatedInnerParses(c, x, after);
    var inner := [Word("NOT")] + ([Word("COALESCE"), LParen] + c + close);
    assert inner + after == [Word("NOT")] + ([Word("COALESCE"), LParen] + c + (close + after));
    ParseParens(inner, Not(CoalesceFalse(x)), more);
  }

  lemma RuleParses(item: Item, n: nat, more: seq<Token>)
    requires GoodColumn(item.cond.column)
    ensures ParseNot(RuleTokens(item, n) + more) == Parsed(RuleExpr(item, n), more)
  {
    var column, op := item.cond.column, item.cond.op;
    forall rest ensures ParsePrimary(([LParen] + ComparisonTokens(column, op, n) + [RParen]) + rest)
                        == Parsed(Compare(column, op, n), rest) {
      PlainRuleParses(column, op, n, rest);
    }
    if item.negate {
      NegatedRuleParses([LParen] + ComparisonTokens(column, op, n) + [RParen], Compare(column, op, n), more);
    }
  }

  /** Extends `l` by the rules joined to it by AND; also where the run ends. */
  function AndRun(l: Expr, items: seq<Item>, k: nat): (r: (Expr, nat))
    requires k <= |items|
    ensures k <= r.1 <= |items| && (r.1 == |items| || items[r.1].isOr)
    decreases |items| - k
  {
    if k < |items| && !items[k].isOr then AndRun(And(l, RuleExpr(items[k], k + 1)), items, k + 1) else (l, k)
  }

  function OrRuns(l: Expr, items: seq<Item>, k: nat): Expr
    requires k <= |items|
    decreases |items| - k
  {
    if k == |items| then l
    else
      var (r, j) := AndRun(RuleExpr(items[k], k + 1), items, k + 1);
      OrRuns(Or(l, r), items, j)
  }

  function WhereExpr(items: seq<Item>): Expr
    requires items != []
  {
    var (r, j) := AndRun(RuleExpr(items[0], 1), items, 1);
    OrRuns(r, items, j)
  }

  lemma TailStart(items: seq<Item>, k: nat, rest: seq<Token>)
    requires k <= |items| && Closed(rest)
    ensures k == |items| ==> TailTokens(items, k) + rest == rest
    ensures k < |items| ==>
              var ts := TailTokens(items, k) + rest;
              && ts != [] && ts[0] == Word(ConnectorWord(items[k]))
              && ts[1..] == RuleTokens(items[k], k + 1) + (TailTokens(items, k + 1) + rest)
  {
    if k < |items| {
      var w, r, t := [Word(ConnectorWord(items[k]))], RuleTokens(items[k], k + 1), TailTokens(items, k + 1);
      Assoc(r, t, rest);
      assert w + (r + t) + rest == w + ((r + t) + rest);
    }
  }

  lemma {:induction false} AndTailParses(l: Expr, items: seq<Item>, k: nat, rest: seq<Token>)
    requires k <= |items| && GoodItems(items) && Closed(rest)
    ensures var (r, j) := AndRun(l, items, k);
            AndTail(l, TailTokens(items, k) + rest) == Parsed(r, TailTokens(items, j) + rest)
    decreases |items| - k
  {
    TailStart(items, k, rest);
    if k < |items| && !items[k].isOr {
      var more := TailTokens(items, k + 1) + rest;
      RuleParses(items[k], k + 1, more);
      AndTailStep(l, TailTokens(items, k) + rest, RuleExpr(items[k], k + 1), more);
      AndTailParses(And(l, RuleExpr(items[k], k + 1)), items, k + 1, rest);
    }
  }

  lemma AndTailStep(l: Expr, ts: seq<Token>, x: Expr, more: seq<Token>)
    requires Starts(ts, "AND") && ParseNot(ts[1..]) == Parsed(x, more)
    ensures AndTail(l, ts) == AndTail(And(l, x), more)
  {
  }

  lemma {:induction false} OrTailParses(l: Expr, items: seq<Item>, k: nat, rest: seq<Token>)
    requires k <= |items| && (k == |items| || items[k].isOr) && GoodItems(items) && Closed(rest)
    ensures OrTail(l, TailTokens(items, k) + rest) == Parsed(OrRuns(l, items, k), rest)
    decreases |items| - k
  {
    TailStart(items, k, rest);
    if k < |items| {
      var first := RuleExpr(items[k], k + 1);
      var (r, j) := AndRun(first, items, k + 1);
      RuleParses(items[k], k + 1, TailTokens(items, k + 1) + rest);
      AndTailParses(first, items, k + 1, rest);
      OrTailParses(Or(l, r), items, j, rest);
    }
  }

  lemma WhereParses(items: seq<Item>, rest: seq<Token>)
    requires items != [] && GoodItems(items) && Closed(rest)
    ensures ParseOr(WhereTokens(items) + rest) == Parsed(WhereExpr(items), rest)
  {
    var first := RuleExpr(items[0], 1);
    var (r, j) := AndRun(first, items, 1);
    Assoc(RuleTokens(items[0], 1), TailTokens(items, 1), rest);
    RuleParses(items[0], 1, TailTokens(items, 1) + rest);
    AndTailParses(first, items, 1, rest);
    OrTailParses(r, items, j, rest);
  }

  // ----- what it selects ----------------------------------------------------------------------------

  /** Left to right: `l` says whether the current run has matched so far. */
  predicate Selects(l: bool, isOr: seq<bool>, matched: seq<bool>, k: nat)
    requires |isOr| == |matched| && k <= |isOr|
    decreases |isOr| - k
  {
    if k == |isOr| then l
    else if isOr[k] then l || Selects(matched[k], isOr, matched, k + 1)
    else Selects(l && matched[k], isOr, matched, k + 1)
  }

  function Connectors(items: seq<Item>): seq<bool> {
    seq(|items|, i requires 0 <= i < |items| => items[i].isOr)
  }

  /** Which expressions are TRUE of a row. */
  function TrueOf(e: Engine, row: DbRow, binds: seq<SqlValue>): Expr -> bool {
    x => Eval(x, e, row, binds) == True
  }

  /** All that matters of three-valued AND and OR here: when they are TRUE. */
  ghost predicate Connects(t: Expr -> bool) {
    && (forall l, r :: t(And(l, r)) <==> t(l) && t(r))
    && (forall l, r :: t(Or(l, r)) <==> t(l) || t(r))
  }

  lemma TrueOfConnects(e: Engine, row: DbRow, binds: seq<SqlValue>)
    ensures Connects(TrueOf(e, row, binds))
  {
  }

  function Truths(items: seq<Item>, t: Expr -> bool): seq<bool> {
    seq(|items|, i requires 0 <= i < |items| => t(RuleExpr(items[i], i + 1)))
  }

  lemma {:induction false} AndRunTrue(l: Expr, items: seq<Item>, k: nat, t: Expr -> bool)
    requires k <= |items| && Connects(t)
    ensures var (r, j), isOr, ms := AndRun(l, items, k), Connectors(items), Truths(items, t);
            Selects(t(l), isOr, ms, k) == (t(r) || (j < |items| && Selects(ms[j], isOr, ms, j + 1)))
    decreases |items| - k
  {
    if k < |items| && !items[k].isOr {
      AndRunTrue(And(l, RuleExpr(items[k], k + 1)), items, k + 1, t);
    }
  }

  lemma {:induction false} OrRunsTrue(l: Expr, items: seq<Item>, k: nat, t: Expr -> bool)
    requires k <= |items| && (k == |items| || items[k].isOr) && Connects(t)
    ensures var isOr, ms := Connectors(items), Truths(items, t);
            t(OrRuns(l, items, k)) <==> t(l) || (k < |items| && Selects(ms[k], isOr, ms, k + 1))
    decreases |items| - k
  {
    if k < |items| {
      var first := RuleExpr(items[k], k + 1);
      var (r, j) := AndRun(first, items, k + 1);
      AndRunTrue(first, items, k + 1, t);
      OrRunsTrue(Or(l, r), items, j, t);
    }
  }

  lemma WhereTrue(items: seq<Item>, t: Expr -> bool)
    requires items != [] && Connects(t)
    ensures var isOr, ms := Connectors(items), Truths(items, t);
            t(WhereExpr(items)) <==> Selects(ms[0], isOr, ms, 1)
  {
    var first := RuleExpr(items[0], 1);
    var (r, j) := AndRun(first, items, 1);
    AndRunTrue(first, items, 1, t);
    OrRunsTrue(r, items, j, t);
  }

  /** Some run that starts at `a` or later matches throughout. */
  ghost predicate SomeRunFrom(isOr: seq<bool>, matched: seq<bool>, a: nat)
    requires |isOr| == |matched|
  {
    exists c, b :: a <= c && IsRun(isOr, c, b) && AllOf(matched, c, b)
  }

  lemma {:induction false} SelectsIsSomeRun(isOr: seq<bool>, matched: seq<bool>, a: nat, k: nat)
    requires |isOr| == |matched| && a < k <= |isOr|
    requires (a == 0 || isOr[a]) && forall i | a < i < k :: !isOr[i]
    ensures Selects(AllOf(matched, a, k), isOr, matched, k) <==> SomeRunFrom(isOr, matched, a)
    decreases |isOr| - k
  {
    if k == |isOr| {
      assert IsRun(isOr, a, k);
    } else if isOr[k] {
      assert IsRun(isOr, a, k);
      assert AllOf(matched, k, k + 1) == matched[k];
      SelectsIsSomeRun(isOr, matched, k, k + 1);
    } else {
      assert AllOf(matched, a, k + 1) == (AllOf(matched, a, k) && matched[k]);
      SelectsIsSomeRun(isOr, matched, a, k + 1);
    }
  }

  lemma SelectsFromStart(isOr: seq<bool>, matched: seq<bool>)
    requires |isOr| == |matched| > 0
    ensures Selects(matched[0], isOr, matched, 1) <==> SomeRun(isOr, matched)
  {
    assert AllOf(matched, 0, 1) == matched[0];
    SelectsIsSomeRun(isOr, matched, 0, 1);
    assert SomeRunFrom(isOr, matched, 0) <==> SomeRun(isOr, matched);
  }

  /** The emitted text parses to the expression its rules mean. More binds may follow the
      rules' own. */
  lemma WhereTextMeans(e: Engine, parse: NumberParser, rules: seq<SearchRule>, row: DbRow, binds: seq<SqlValue>)
    requires FoldKeepsSpecials(e.fold) && rules != [] && Compiles(parse, rules)
    requires Binds(ItemsOf(parse, rules)) <= binds
    ensures var items := ItemsOf(parse, rules);
            && Parse(WhereText(items)) == Some(WhereExpr(items))
            && (Eval(WhereExpr(items), e, row, binds) == True <==> RulesSelect(e, parse, rules, row))
  {
    var items := ItemsOf(parse, rules);
    ItemsAreGood(parse, rules);
    LexWhere(items);
    WhereParses(items, []);
    assert WhereTokens(items) + [] == WhereTokens(items);
    TrueOfConnects(e, row, binds);
    WhereTrue(items, TrueOf(e, row, binds));
    TruthsAreMatches(e, parse, rules, row, binds);
    SelectsFromStart(Connectors(items), Truths(items, TrueOf(e, row, binds)));
  }

  /** The emitted text, read by SQL's own grammar and three-valued logic, selects exactly the
      rows the rules describe. */
  lemma WhereSelectsWhatRulesSay(e: Engine, parse: NumberParser, rules: seq<SearchRule>, row: DbRow)
    requires FoldKeepsSpecials(e.fold) && rules != [] && Compiles(parse, rules)
    ensures var items := ItemsOf(parse, rules);
            && Parse(WhereText(items)).Some?
            && (SqlSelects(WhereText(items), e, row, Binds(items)) <==> RulesSelect(e, parse, rules, row))
  {
    WhereTextMeans(e, parse, rules, row, Binds(ItemsOf(parse, rules)));
  }

  lemma ItemsAreGood(parse: NumberParser, rules: seq<SearchRule>)
    requires Compiles(parse, rules)
    ensures GoodItems(ItemsOf(parse, rules))
  {
    forall i | 0 <= i < |rules| ensures GoodColumn(ItemsOf(parse, rules)[i].cond.column) {
      CompiledColumnsAreGood(parse, rules[i]);
    }
  }

  lemma TruthAt(items: seq<Item>, t: Expr -> bool, i: nat)
    requires i < |items|
    ensures Truths(items, t)[i] == t(RuleExpr(items[i], i + 1))
  {
  }

  lemma MatchedAt(e: Engine, parse: NumberParser, rules: seq<SearchRule>, row: DbRow, i: nat)
    requires i < |rules|
    ensures MatchedRules(e, parse, rules, row)[i] == RuleMatches(e, parse, rules[i], row)
  {
  }

  lemma BindAt(items: seq<Item>, binds: seq<SqlValue>, i: nat)
    requires Binds(items) <= binds && i < |items|
    ensures i < |binds| && binds[i] == items[i].cond.bind
  {
    assert binds[i] == Binds(items)[i];
  }

  lemma RuleTruth(e: Engine, parse: NumberParser, rules: seq<SearchRule>, row: DbRow, binds: seq<SqlValue>, i: nat)
    requires FoldKeepsSpecials(e.fold) && Compiles(parse, rules) && i < |rules|
    requires Binds(ItemsOf(parse, rules)) <= binds
    ensures TrueOf(e, row, binds)(RuleExpr(ItemsOf(parse, rules)[i], i + 1)) == RuleMatches(e, parse, rules[i], row)
  {
    var item := ItemsOf(parse, rules)[i];
    assert rules[i] in rules;
    BindAt(ItemsOf(parse, rules), binds, i);
    RuleIsTrue(e, parse, rules[i], row, i + 1, binds, item);
  }

  lemma RuleIsTrue(
    e: Engine, parse: NumberParser, rule: SearchRule, row: DbRow, n: nat, binds: seq<SqlValue>, item: Item)
    requires FoldKeepsSpecials(e.fold) && CompileRule(parse, rule).Ok?
    requires 1 <= n <= |binds| && binds[n - 1] == CompileRule(parse, rule).value.bind
    requires item == Item(IsOr(rule.connector), CompileRule(parse, rule).value, rule.negate)
    ensures TrueOf(e, row, binds)(RuleExpr(item, n)) == RuleMatches(e, parse, rule, row)
  {
    RuleMeans(e, parse, rule, row, n, binds);
  }

  lemma ConnectorsAreSaid(parse: NumberParser, rules: seq<SearchRule>)
    requires Compiles(parse, rules)
    ensures Connectors(ItemsOf(parse, rules)) == OrFlags(rules)
  {
    forall i | 0 <= i < |rules| ensures IsOr(rules[i].connector) == SaysOr(rules[i].connector) {
      OrIsSaid(rules[i].connector);
    }
  }

  lemma TruthsAreMatches(e: Engine, parse: NumberParser, rules: seq<SearchRule>, row: DbRow, binds: seq<SqlValue>)
    requires FoldKeepsSpecials(e.fold) && Compiles(parse, rules)
    requires Binds(ItemsOf(parse, rules)) <= binds
    ensures var items := ItemsOf(parse, rules);
            SomeRun(Connectors(items), Truths(items, TrueOf(e, row, binds))) == RulesSelect(e, parse, rules, row)
  {
    var items := ItemsOf(parse, rules);
    var truths, matched := Truths(items, TrueOf(e, row, binds)), MatchedRules(e, parse, rules, row);
    forall i | 0 <= i < |rules|
      ensures truths[i] == matched[i]
    {
      RuleTruth(e, parse, rules, row, binds, i);
      TruthAt(items, TrueOf(e, row, binds), i);
      MatchedAt(e, parse, rules, row, i);
    }
    assert truths == matched;
    ConnectorsAreSaid(parse, rules);
  }
}
