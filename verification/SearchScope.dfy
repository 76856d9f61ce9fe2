/** Scoping a restricted user's search, and the query's numbered placeholders. */
module SearchScope {
  import opened Text
  import opened Like
  import opened SqlExpr
  import opened Search
  import opened SearchMeaning
  import opened SearchClause

  // ----- the scope clause ------------------------------------------------------------------------

  function ScopeCond(n: nat): string {
    ComparisonText("f.path", Eq, n + 1) + (" " + "OR" + " ") + ComparisonText("f.path", LikeOp, n + 2)
  }

  /** The disjuncts for `m` prefixes whose binds start after position `n`. */
  function ScopeConds(m: nat, n: nat): seq<string> {
    if m == 0 then [] else [ScopeCond(n)] + ScopeConds(m - 1, n + 2)
  }

  function ScopeText(prefixes: seq<string>, n: nat): string {
    if prefixes == [] then "FALSE"
    else if "/" in prefixes then "TRUE"
    else "(" + (Join(ScopeConds(|prefixes|, n), " " + "OR" + " ") + ")")
  }

  /** The binds appended before the loop ends or meets `/`. */
  function ScopeBinds(prefixes: seq<string>): seq<SqlValue> {
    if prefixes == [] || prefixes[0] == "/" then []
    else [SqlValue.Text(prefixes[0]), SqlValue.Text(EscapeLike(prefixes[0]) + "/%")] + ScopeBinds(prefixes[1..])
  }

  lemma {:induction false} ScopeCondsSnoc(m: nat, n: nat)
    ensures ScopeConds(m + 1, n) == ScopeConds(m, n) + [ScopeCond(n + 2 * m)]
  {
    if m > 0 { ScopeCondsSnoc(m - 1, n + 2); }
  }

  lemma {:induction false} ScopeBindsSnoc(prefixes: seq<string>, i: nat)
    requires i < |prefixes| && "/" !in prefixes[..i]
    ensures ScopeBinds(prefixes[..i + 1]) ==
            ScopeBinds(prefixes[..i]) + ScopeBinds([prefixes[i]])
    ensures |ScopeBinds(prefixes[..i])| == 2 * i
    ensures prefixes[i] == "/" ==> ScopeBinds(prefixes) == ScopeBinds(prefixes[..i])
  {
    if i == 0 {
      assert prefixes[..1] == [prefixes[0]];
    } else {
      var more := prefixes[1..];
      assert prefixes[..i + 1][1..] == more[..i] && prefixes[..i][1..] == more[..i - 1];
      assert prefixes[0] == prefixes[..i][0];
      ScopeBindsSnoc(more, i - 1);
    }
  }

  lemma ScopeStep(prefixes: seq<string>, i: nat)
    requires i < |prefixes| && "/" !in prefixes[..i]
    ensures |ScopeBinds(prefixes[..i])| == 2 * i
    ensures if prefixes[i] == "/" then ScopeBinds(prefixes) == ScopeBinds(prefixes[..i])
            else "/" !in prefixes[..i + 1]
                 && ScopeBinds(prefixes[..i + 1]) ==
                    ScopeBinds(prefixes[..i])
                    + [SqlValue.Text(prefixes[i]), SqlValue.Text(EscapeLike(prefixes[i]) + "/%")]
  {
    var p := prefixes[i];
    ScopeBindsSnoc(prefixes, i);
    assert prefixes[..i + 1] == prefixes[..i] + [p];
    assert [p][1..] == [];
  }

  method ScopeClause(prefixes: seq<string>, args: ArgList) returns (r: string)
    modifies args
    ensures r == ScopeText(prefixes, old(|args.values|))
    ensures args.values == old(args.values) + ScopeBinds(prefixes)
  {
    if |prefixes| == 0 { return "FALSE"; }
    var conds := [];
    ghost var n := |args.values|;
    for i := 0 to |prefixes|
      invariant "/" !in prefixes[..i]
      invariant args.values == old(args.values) + ScopeBinds(prefixes[..i])
      invariant |args.values| == n + 2 * i
      invariant conds == ScopeConds(i, n)
    {
      var p := prefixes[i];
      ScopeStep(prefixes, i);
      ScopeCondsSnoc(i, n);
      if p == "/" { return "TRUE"; }
      args.values := args.values + [SqlValue.Text(p), SqlValue.Text(EscapeLike(p) + "/%")];
      conds := conds + [ScopeCond(|args.values| - 2)];
    }
    assert prefixes[..|prefixes|] == prefixes;
    r := "(" + (Join(conds, " " + "OR" + " ") + ")");
  }

  // ----- its tokens and expression -----------------------------------------------------------------

  function PairTokens(n: nat): seq<Token> {
    ComparisonTokens("f.path", Eq, n + 1) + ([Word("OR")] + ComparisonTokens("f.path", LikeOp, n + 2))
  }

  function ChainTokens(m: nat, n: nat): seq<Token> {
    if m == 0 then []
    else if m == 1 then PairTokens(n)
    else PairTokens(n) + ([Word("OR")] + ChainTokens(m - 1, n + 2))
  }

  lemma LexPair(n: nat)
    ensures Lex(ScopeCond(n)) == PairTokens(n)
  {
    OwnColumnsAreGood();
    KeywordsArePlain();
    LexComparison("f.path", Eq, n + 1);
    LexComparison("f.path", LikeOp, n + 2);
    LexJoined(ComparisonText("f.path", Eq, n + 1), "OR", ComparisonText("f.path", LikeOp, n + 2));
  }

  lemma {:induction false} LexChain(m: nat, n: nat)
    requires m > 0
    ensures Lex(Join(ScopeConds(m, n), " " + "OR" + " ")) == ChainTokens(m, n)
  {
    LexPair(n);
    var conds := ScopeConds(m, n);
    assert conds[1..] == ScopeConds(m - 1, n + 2);
    if m > 1 {
      LexChain(m - 1, n + 2);
      KeywordsArePlain();
      assert |conds| > 1;
      LexJoined(ScopeCond(n), "OR", Join(conds[1..], " " + "OR" + " "));
    } else {
      assert ScopeConds(0, n + 2) == [];
    }
  }

  function PathIs(n: nat): Expr { Compare("f.path", Eq, n + 1) }

  function PathLike(n: nat): Expr { Compare("f.path", LikeOp, n + 2) }

  /** OR is left-associative: each further pair joins what is there already. */
  function ScopeChain(l: Expr, m: nat, n: nat): Expr
    decreases m
  {
    if m == 0 then l else ScopeChain(Or(Or(l, PathIs(n)), PathLike(n)), m - 1, n + 2)
  }

  function ScopeExpr(prefixes: seq<string>, n: nat): Expr {
    if prefixes == [] then Const(false)
    else if "/" in prefixes then Const(true)
    else ScopeChain(Or(PathIs(n), PathLike(n)), |prefixes| - 1, n + 2)
  }

  lemma ComparisonIsAnd(op: Op, n: nat, more: seq<Token>)
    requires !Starts(more, "AND")
    ensures ParseAnd(ComparisonTokens("f.path", op, n) + more) == Parsed(Compare("f.path", op, n), more)
  {
    OwnColumnsAreGood();
    ParseComparison("f.path", op, n, more);
  }

  lemma PairExtends(l: Expr, n: nat, more: seq<Token>)
    requires !Starts(more, "AND")
    ensures OrTail(l, [Word("OR")] + (PairTokens(n) + more)) == OrTail(Or(Or(l, PathIs(n)), PathLike(n)), more)
  {
    var likes := ComparisonTokens("f.path", LikeOp, n + 2);
    var second := [Word("OR")] + (likes + more);
    var first := ComparisonTokens("f.path", Eq, n + 1);
    ComparisonIsAnd(Eq, n + 1, second);
    ComparisonIsAnd(LikeOp, n + 2, more);
    assert ([Word("OR")] + (PairTokens(n) + more))[1..] == first + second;
    assert second[1..] == likes + more;
  }

  lemma {:induction false} ChainExtends(l: Expr, m: nat, n: nat, rest: seq<Token>)
    requires m > 0 && Closed(rest)
    ensures OrTail(l, [Word("OR")] + (ChainTokens(m, n) + rest)) == Parsed(ScopeChain(l, m, n), rest)
    decreases m
  {
    if m == 1 {
      PairExtends(l, n, rest);
    } else {
      var more := [Word("OR")] + (ChainTokens(m - 1, n + 2) + rest);
      assert ChainTokens(m, n) + rest == PairTokens(n) + more;
      PairExtends(l, n, more);
      ChainExtends(Or(Or(l, PathIs(n)), PathLike(n)), m - 1, n + 2, rest);
    }
  }

  lemma PairParses(n: nat, more: seq<Token>)
    requires !Starts(more, "AND")
    ensures ParseOr(PairTokens(n) + more) == OrTail(Or(PathIs(n), PathLike(n)), more)
  {
    var likes := ComparisonTokens("f.path", LikeOp, n + 2);
    var second := [Word("OR")] + (likes + more);
    ComparisonIsAnd(Eq, n + 1, second);
    ComparisonIsAnd(LikeOp, n + 2, more);
    assert PairTokens(n) + more == ComparisonTokens("f.path", Eq, n + 1) + second;
    assert second[1..] == likes + more;
  }

  lemma ChainParses(m: nat, n: nat, rest: seq<Token>)
    requires m > 0 && Closed(rest)
    ensures ParseOr(ChainTokens(m, n) + rest) == Parsed(ScopeChain(Or(PathIs(n), PathLike(n)), m - 1, n + 2), rest)
  {
    var pair := Or(PathIs(n), PathLike(n));
    if m == 1 {
      PairParses(n, rest);
    } else {
      var more := [Word("OR")] + (ChainTokens(m - 1, n + 2) + rest);
      assert ChainTokens(m, n) + rest == PairTokens(n) + more;
      PairParses(n, more);
      ChainExtends(pair, m - 1, n + 2, rest);
    }
  }

  function ScopeTokens(prefixes: seq<string>, n: nat): seq<Token> {
    if prefixes == [] then [Word("FALSE")]
    else if "/" in prefixes then [Word("TRUE")]
    else [LParen] + ChainTokens(|prefixes|, n) + [RParen]
  }

  lemma LexScope(prefixes: seq<string>, n: nat)
    ensures Lex(ScopeText(prefixes, n)) == ScopeTokens(prefixes, n)
  {
    KeywordsArePlain();
    if prefixes == [] {
      LexOneWord("FALSE");
    } else if "/" in prefixes {
      LexOneWord("TRUE");
    } else {
      var chain := Join(ScopeConds(|prefixes|, n), " " + "OR" + " ");
      LexChain(|prefixes|, n);
      LexOpen(chain + ")");
      LexAppend(chain, ")");
      LexClose("");
    }
  }

  lemma ScopeParses(prefixes: seq<string>, n: nat)
    ensures ParseNot(ScopeTokens(prefixes, n)) == Parsed(ScopeExpr(prefixes, n), [])
  {
    if prefixes != [] && "/" !in prefixes {
      var m := |prefixes|;
      ChainParses(m, n, [RParen] + []);
      ParseParens(ChainTokens(m, n), ScopeExpr(prefixes, n), []);
      assert [LParen] + ChainTokens(m, n) + [RParen] + [] == ScopeTokens(prefixes, n);
    }
  }
}
