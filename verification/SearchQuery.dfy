/** The assembled search query: rules, scope, order and paging. */
module SearchQuery {
  import opened Text
  import opened Paths
  import opened Like
  import opened SqlExpr
  import opened Search
  import opened SearchMeaning
  import opened SearchClause
  import opened Access
  import opened SearchScope

  // ----- what the scope clause selects ------------------------------------------------------------

  lemma SlashPattern(p: string, path: string)
    ensures Matches(EscapeLike(p) + "/%", path) <==> p + "/" <= path
  {
    EscapedMatchesLiterally(p, "/%", path);
    if p <= path {
      var rest := path[|p|..];
      assert "/%"[1..] == "%";
      if rest != "" { PercentMatchesAll(rest[1..]); }
      assert path == p + rest;
      assert p + "/" <= path <==> "/" <= rest;
    }
  }

  lemma PairTrue(p: string, path: string, n: nat, e: Engine, row: DbRow, binds: seq<SqlValue>)
    requires row("f.path") == Some(SqlValue.Text(path)) && n + 2 <= |binds|
    requires binds[n] == SqlValue.Text(p) && binds[n + 1] == SqlValue.Text(EscapeLike(p) + "/%")
    ensures Eval(PathIs(n), e, row, binds) == True <==> path == p
    ensures Eval(PathLike(n), e, row, binds) == True <==> p + "/" <= path
  {
    SlashPattern(p, path);
  }

  lemma UnderPrefixCons(prefixes: seq<string>, path: string)
    requires prefixes != []
    ensures UnderPrefix(prefixes, path) <==>
            prefixes[0] == "/" || path == prefixes[0] || prefixes[0] + "/" <= path || UnderPrefix(prefixes[1..], path)
  {
    assert prefixes == [prefixes[0]] + prefixes[1..];
    if UnderPrefix(prefixes, path) {
      var pre :| pre in prefixes && (pre == "/" || path == pre || pre + "/" <= path);
      assert pre == prefixes[0] || pre in prefixes[1..];
    }
    if UnderPrefix(prefixes[1..], path) {
      var pre :| pre in prefixes[1..] && (pre == "/" || path == pre || pre + "/" <= path);
      assert pre in prefixes;
    }
    assert prefixes[0] in prefixes;
  }

  lemma {:induction false} ChainTrue(
    l: Expr, prefixes: seq<string>, path: string, n: nat, e: Engine, row: DbRow, binds: seq<SqlValue>)
    requires "/" !in prefixes && row("f.path") == Some(SqlValue.Text(path))
    requires n <= |binds| && ScopeBinds(prefixes) <= binds[n..]
    ensures Eval(ScopeChain(l, |prefixes|, n), e, row, binds) == True <==>
            Eval(l, e, row, binds) == True || UnderPrefix(prefixes, path)
    decreases |prefixes|
  {
    if prefixes != [] {
      var p, more := prefixes[0], prefixes[1..];
      BindsAt(prefixes, n, binds);
      PairTrue(p, path, n, e, row, binds);
      ChainTrue(Or(Or(l, PathIs(n)), PathLike(n)), more, path, n + 2, e, row, binds);
      UnderPrefixCons(prefixes, path);
    }
  }

  lemma BindsAt(prefixes: seq<string>, n: nat, binds: seq<SqlValue>)
    requires prefixes != [] && prefixes[0] != "/"
    requires n <= |binds| && ScopeBinds(prefixes) <= binds[n..]
    ensures n + 2 <= |binds| && binds[n] == SqlValue.Text(prefixes[0])
    ensures binds[n + 1] == SqlValue.Text(EscapeLike(prefixes[0]) + "/%")
    ensures ScopeBinds(prefixes[1..]) <= binds[n + 2..]
  {
    var s := ScopeBinds(prefixes);
    assert s[0] == binds[n..][0] && s[1] == binds[n..][1];
    assert s[2..] == ScopeBinds(prefixes[1..]);
    assert binds[n..][2..] == binds[n + 2..];
  }

  /** The clause is TRUE exactly for the paths the access test accepts. */
  lemma ScopeTrue(prefixes: seq<string>, path: string, n: nat, e: Engine, row: DbRow, binds: seq<SqlValue>)
    requires row("f.path") == Some(SqlValue.Text(path))
    requires n <= |binds| && ScopeBinds(prefixes) <= binds[n..]
    ensures Eval(ScopeExpr(prefixes, n), e, row, binds) == True <==> UnderPrefix(prefixes, path)
  {
    if prefixes != [] && "/" !in prefixes {
      var first := prefixes[0];
      BindsAt(prefixes, n, binds);
      PairTrue(first, path, n, e, row, binds);
      ChainTrue(Or(PathIs(n), PathLike(n)), prefixes[1..], path, n + 2, e, row, binds);
      UnderPrefixCons(prefixes, path);
    }
  }

  // ----- the final WHERE ---------------------------------------------------------------------------

  /** `(<rules>) AND <scope>` */
  function Scoped(rules: string, scope: string): string {
    "(" + (rules + (")" + (" " + ("AND" + (" " + scope)))))
  }

  function FinalWhere(items: seq<Item>, a: Access): string {
    if a.role == Restricted then Scoped(WhereText(items), ScopeText(a.prefixes, |items|)) else WhereText(items)
  }

  function FinalBinds(items: seq<Item>, a: Access): seq<SqlValue> {
    Binds(items) + if a.role == Restricted then ScopeBinds(a.prefixes) else []
  }

  function FinalExpr(items: seq<Item>, a: Access): Expr
    requires items != []
  {
    if a.role == Restricted then And(WhereExpr(items), ScopeExpr(a.prefixes, |items|)) else WhereExpr(items)
  }

  function FinalTokens(items: seq<Item>, a: Access): seq<Token>
    requires items != []
  {
    if a.role == Restricted
    then [LParen] + WhereTokens(items) + [RParen] + ([Word("AND")] + ScopeTokens(a.prefixes, |items|))
    else WhereTokens(items)
  }

  lemma LexScoped(rules: string, w: string, scope: string)
    requires Plain(w)
    ensures Lex("(" + (rules + (")" + (" " + (w + (" " + scope)))))) ==
            [LParen] + (Lex(rules) + ([RParen] + ([Word(w)] + Lex(scope))))
  {
    var tail := ")" + (" " + (w + (" " + scope)));
    LexOpen(rules + tail);
    LexAppend(rules, tail);
    LexClose(" " + (w + (" " + scope)));
    LexSpace(w + (" " + scope));
    LexWordThenBlank(w, scope);
  }

  lemma Regroup(a: seq<Token>, b: seq<Token>, c: seq<Token>, d: seq<Token>)
    ensures a + (b + (c + d)) == a + b + c + d
  {}

  lemma LexFinal(items: seq<Item>, a: Access)
    requires items != [] && GoodItems(items)
    ensures Lex(FinalWhere(items, a)) == FinalTokens(items, a)
  {
    LexWhere(items);
    if a.role == Restricted {
      KeywordsArePlain();
      LexScope(a.prefixes, |items|);
      LexScoped(WhereText(items), "AND", ScopeText(a.prefixes, |items|));
      Regroup([LParen], WhereTokens(items), [RParen], [Word("AND")] + ScopeTokens(a.prefixes, |items|));
    }
  }

  lemma FinalParses(items: seq<Item>, a: Access)
    requires items != [] && GoodItems(items)
    ensures ParseOr(FinalTokens(items, a)) == Parsed(FinalExpr(items, a), [])
  {
    var where := WhereTokens(items);
    if a.role == Restricted {
      var scope := ScopeTokens(a.prefixes, |items|);
      var rest := [Word("AND")] + scope;
      WhereParses(items, [RParen] + rest);
      ParseParens(where, WhereExpr(items), rest);
      ScopeParses(a.prefixes, |items|);
      assert rest[1..] == scope;
      var ts := FinalTokens(items, a);
      assert ParseNot(ts) == Parsed(WhereExpr(items), rest);
      assert AndTail(WhereExpr(items), rest) == AndTail(FinalExpr(items, a), []);
      assert ParseAnd(ts) == Parsed(FinalExpr(items, a), []);
    } else {
      WhereParses(items, []);
      assert where + [] == where;
    }
  }

  lemma FinalTextParses(parse: NumberParser, rules: seq<SearchRule>, a: Access)
    requires rules != [] && Compiles(parse, rules)
    ensures Parse(FinalWhere(ItemsOf(parse, rules), a)) == Some(FinalExpr(ItemsOf(parse, rules), a))
  {
    ItemsAreGood(parse, rules);
    LexFinal(ItemsOf(parse, rules), a);
    FinalParses(ItemsOf(parse, rules), a);
  }

  lemma CanonicalAllows(a: Access, path: string)
    requires Canonical(path)
    ensures Allows(a, path) <==> a.role != Restricted || UnderPrefix(a.prefixes, path)
  {
    RenderStartsWithSlash(Names(path));
    CleanCharacterizesCanonical(path);
  }

  /** For a row with a canonical path, the final clause selects it exactly when the rules do
      and the caller may see it, whatever connectors the rules contain. Limit and offset may
      follow the clause's own binds. */
  lemma FinalClauseIsScoped(
    e: Engine, parse: NumberParser, rules: seq<SearchRule>, a: Access, row: DbRow, path: string, binds: seq<SqlValue>)
    requires FoldKeepsSpecials(e.fold) && rules != [] && Compiles(parse, rules)
    requires row("f.path") == Some(SqlValue.Text(path)) && Canonical(path)
    requires FinalBinds(ItemsOf(parse, rules), a) <= binds
    ensures var clause := FinalWhere(ItemsOf(parse, rules), a);
            && Parse(clause).Some?
            && (SqlSelects(clause, e, row, binds) <==> RulesSelect(e, parse, rules, row) && Allows(a, path))
  {
    FinalTextParses(parse, rules, a);
    FinalExprIsScoped(e, parse, rules, a, row, path, binds);
  }

  lemma FinalExprIsScoped(
    e: Engine, parse: NumberParser, rules: seq<SearchRule>, a: Access, row: DbRow, path: string, binds: seq<SqlValue>)
    requires FoldKeepsSpecials(e.fold) && rules != [] && Compiles(parse, rules)
    requires row("f.path") == Some(SqlValue.Text(path)) && Canonical(path)
    requires FinalBinds(ItemsOf(parse, rules), a) <= binds
    ensures Eval(FinalExpr(ItemsOf(parse, rules), a), e, row, binds) == True <==>
            RulesSelect(e, parse, rules, row) && Allows(a, path)
  {
    var items := ItemsOf(parse, rules);
    assert Binds(items) <= binds by { assert Binds(items) <= FinalBinds(items, a); }
    WhereTextMeans(e, parse, rules, row, binds);
    CanonicalAllows(a, path);
    if a.role == Restricted {
      ScopeBindsFollow(items, a, binds);
      ScopeTrue(a.prefixes, path, |items|, e, row, binds);
    }
  }

  lemma ScopeBindsFollow(items: seq<Item>, a: Access, binds: seq<SqlValue>)
    requires a.role == Restricted && FinalBinds(items, a) <= binds
    ensures |items| <= |binds| && ScopeBinds(a.prefixes) <= binds[|items|..]
  {
    var f := FinalBinds(items, a);
    assert f == binds[..|f|];
    assert ScopeBinds(a.prefixes) == f[|items|..] == binds[|items|..][..|f| - |items|];
  }
}
