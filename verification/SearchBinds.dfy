/** The whole query text with ORDER BY, LIMIT and OFFSET, and its numbered placeholders. */
module SearchBinds {
  import opened Text
  import opened Paths
  import opened SqlExpr
  import opened Search
  import opened SearchMeaning
  import opened SearchClause
  import opened Access
  import opened SearchScope
  import opened SearchQuery

  // ----- assembling the query ------------------------------------------------------------------

  const SEARCH_MAX_LIMIT: int := 10000

  /** The sort allowlist: every field but the two identity names. */
  function SortColumn(sortBy: string): string {
    match FieldOf(sortBy)
    case None => "f.path"
    case Some(f) => if f.User? || f.Group? then "f.path" else f.Column()
  }

  /** strings.EqualFold(order, "DESC"); the long s folds to s. */
  predicate IsDesc(order: string) {
    && |order| == 4 && order[0] in {'d', 'D'} && order[1] in {'e', 'E'}
    && order[2] in {'s', 'S', '\U{017F}'} && order[3] in {'c', 'C'}
  }

  function OrderWord(order: string): string {
    if IsDesc(order) then "DESC" else "ASC"
  }

  function EffectiveLimit(limit: int): (r: int)
    ensures 1 <= r <= 10000
    ensures 1 <= limit <= 10000 ==> r == limit
    ensures !(1 <= limit <= 10000) ==> r == 200
  {
    if limit <= 0 || limit > SEARCH_MAX_LIMIT then 200 else limit
  }

  function EffectiveOffset(offset: int): (r: int)
    ensures r >= 0 && (offset >= 0 ==> r == offset) && (offset < 0 ==> r == 0)
  {
    if offset < 0 then 0 else offset
  }

  /** Each word with a blank before it. */
  function Spaced(words: seq<string>): string {
    if words == [] then "" else " " + (words[0] + Spaced(words[1..]))
  }

  function PagingWords(column: string, order: string, n: nat): seq<string> {
    ["ORDER", "BY", column, order, "LIMIT", "$" + Dec(n + 1), "OFFSET", "$" + Dec(n + 2)]
  }

  /** The query from its WHERE on: the part that holds placeholders. */
  function QueryText(clause: string, sortColumn: string, order: string, n: nat): string {
    clause + Spaced(PagingWords(sortColumn, order, n))
  }

  datatype SearchFailure = NoRules | BadRule(error: SearchError)

  /** The user's clause is put in parentheses before the scope is added. */
  method BuildScopedWhere(parse: NumberParser, rules: seq<SearchRule>, a: Access)
    returns (r: Result<string, SearchError>, args: ArgList)
    ensures fresh(args)
    ensures r.Ok? <==> Compiles(parse, rules)
    ensures r.Ok? ==>
              var items := ItemsOf(parse, rules);
              r.value == FinalWhere(items, a) && args.values == FinalBinds(items, a)
    ensures r.Err? ==> FirstBad(parse, rules, r.error)
  {
    r, args := BuildSearchWhere(parse, rules);
    if r.Ok? && a.role == Restricted {
      var scope := ScopeClause(a.prefixes, args);
      r := Ok(Scoped(r.value, scope));
    }
  }

  method SearchFiles(
    parse: NumberParser, rules: seq<SearchRule>, a: Access, sortBy: string, order: string, limit: int, offset: int)
    returns (r: Result<(string, seq<SqlValue>), SearchFailure>)
    ensures r.Ok? <==> rules != [] && Compiles(parse, rules)
    ensures r == Err(NoRules) <==> rules == []
    ensures r.Ok? ==>
              var items := ItemsOf(parse, rules);
              var binds := FinalBinds(items, a);
              && r.value.0 == QueryText(FinalWhere(items, a), SortColumn(sortBy), OrderWord(order), |binds|)
              && r.value.1 == binds + [Num(EffectiveLimit(limit)), Num(EffectiveOffset(offset))]
    ensures r.Err? && rules != [] ==> r.error.BadRule? && FirstBad(parse, rules, r.error.error)
  {
    if |rules| == 0 { return Err(NoRules); }
    var built, args := BuildScopedWhere(parse, rules, a);
    if built.Err? { return Err(BadRule(built.error)); }
    var sortCol := SortColumn(sortBy);
    var direction := "ASC";
    if IsDesc(order) { direction := "DESC"; }
    var lim := limit;
    if lim <= 0 || lim > SEARCH_MAX_LIMIT { lim := 200; }
    var off := offset;
    if off < 0 { off := 0; }
    var n := |args.values|;
    args.values := args.values + [Num(lim), Num(off)];
    r := Ok((QueryText(built.value, sortCol, direction, n), args.values));
  }

  // ----- placeholders -----------------------------------------------------------------------------

  /** The parameter numbers of a text, in order of appearance. */
  function Placeholders(ts: seq<Token>): seq<nat> {
    if ts == [] then []
    else
      (if ts[0].Word? && Placeholder(ts[0].text).Some? then [Placeholder(ts[0].text).value] else [])
      + Placeholders(ts[1..])
  }

  function Range(a: nat, b: nat): seq<nat>
    requires a <= b
  {
    seq(b - a, i requires 0 <= i < b - a => a + i)
  }

  lemma {:induction false} PlaceholdersAppend(a: seq<Token>, b: seq<Token>)
    ensures Placeholders(a + b) == Placeholders(a) + Placeholders(b)
  {
    if a == [] {
      assert a + b == b;
    } else {
      assert (a + b)[1..] == a[1..] + b;
      PlaceholdersAppend(a[1..], b);
    }
  }

  predicate NoParameter(t: Token) {
    !t.Word? || (t.text != "" && t.text[0] != '$')
  }

  lemma {:induction false} PlainTokens(ts: seq<Token>)
    requires forall t | t in ts :: NoParameter(t)
    ensures Placeholders(ts) == []
  {
    if ts != [] {
      assert ts[0] in ts;
      PlainTokens(ts[1..]);
    }
  }

  lemma RangeJoin(a: nat, b: nat, c: nat)
    requires a <= b <= c
    ensures Range(a, b) + Range(b, c) == Range(a, c)
  {
  }

  lemma JoinPlaceholders(t: Token, r: seq<Token>, more: seq<Token>)
    requires NoParameter(t)
    ensures Placeholders([t] + (r + more)) == Placeholders(r) + Placeholders(more)
  {
    PlaceholdersAppend(r, more);
    PlaceholdersAppend([t], r + more);
    PlainTokens([t]);
  }

  lemma ComparisonPlaceholders(column: string, op: Op, n: nat)
    requires NoParameter(Word(column))
    ensures Placeholders(ComparisonTokens(column, op, n)) == [n]
  {
    var ts := ComparisonTokens(column, op, n);
    PlaceholderOf(n);
    assert ts[1..] == [Word(Symbol(op)), Word("$" + Dec(n))] && ts[1..][1..] == [Word("$" + Dec(n))];
    assert Placeholders([]) == [];
    assert Placeholders([Word("$" + Dec(n))]) == [n];
    assert Placeholder(Symbol(op)).None?;
  }

  lemma RulePlaceholders(item: Item, n: nat)
    requires NoParameter(Word(item.cond.column))
    ensures Placeholders(RuleTokens(item, n)) == [n]
  {
    var cmp := ComparisonTokens(item.cond.column, item.cond.op, n);
    ComparisonPlaceholders(item.cond.column, item.cond.op, n);
    BracketPlaceholders([LParen], cmp, [RParen]);
    if item.negate {
      var c := [LParen] + cmp + [RParen];
      var pre, post := [LParen, Word("NOT"), Word("COALESCE"), LParen], [Comma, Word("FALSE"), RParen, RParen];
      BracketPlaceholders(pre, c, post);
      assert NegatedTokens(c) == pre + c + post;
    }
  }

  lemma BracketPlaceholders(pre: seq<Token>, ts: seq<Token>, post: seq<Token>)
    requires (forall t | t in pre :: NoParameter(t)) && (forall t | t in post :: NoParameter(t))
    ensures Placeholders(pre + ts + post) == Placeholders(ts)
  {
    PlaceholdersAppend(pre, ts);
    PlaceholdersAppend(pre + ts, post);
    PlainTokens(pre);
    PlainTokens(post);
  }

  lemma OneMore(t: Token, r: seq<Token>, more: seq<Token>, k: nat, n: nat)
    requires k < n && NoParameter(t)
    requires Placeholders(r) == [k] && Placeholders(more) == Range(k + 1, n)
    ensures Placeholders([t] + (r + more)) == Range(k, n)
  {
    JoinPlaceholders(t, r, more);
    assert [k] == Range(k, k + 1);
    RangeJoin(k, k + 1, n);
  }

  lemma {:induction false} TailPlaceholders(items: seq<Item>, k: nat)
    requires k <= |items| && forall i | 0 <= i < |items| :: NoParameter(Word(items[i].cond.column))
    ensures Placeholders(TailTokens(items, k)) == Range(k + 1, |items| + 1)
    decreases |items| - k
  {
    if k < |items| {
      TailPlaceholders(items, k + 1);
      RulePlaceholders(items[k], k + 1);
      OneMore(Word(ConnectorWord(items[k])), RuleTokens(items[k], k + 1), TailTokens(items, k + 1), k + 1, |items| + 1);
    }
  }

  lemma WherePlaceholders(items: seq<Item>)
    requires items != [] && GoodItems(items)
    ensures Placeholders(WhereTokens(items)) == Range(1, |items| + 1)
  {
    assert forall i | 0 <= i < |items| :: GoodColumn(items[i].cond.column) && NoParameter(Word(items[i].cond.column));
    RulePlaceholders(items[0], 1);
    TailPlaceholders(items, 1);
    PlaceholdersAppend(RuleTokens(items[0], 1), TailTokens(items, 1));
    assert [1] == Range(1, 2);
    RangeJoin(1, 2, |items| + 1);
  }

  lemma PairPlaceholders(n: nat)
    ensures Placeholders(PairTokens(n)) == Range(n + 1, n + 3)
  {
    var a, b := ComparisonTokens("f.path", Eq, n + 1), ComparisonTokens("f.path", LikeOp, n + 2);
    OwnColumnsAreGood();
    ComparisonPlaceholders("f.path", Eq, n + 1);
    ComparisonPlaceholders("f.path", LikeOp, n + 2);
    PlaceholdersAppend(a, [Word("OR")] + b);
    JoinPlaceholders(Word("OR"), b, []);
    assert b + [] == b;
  }

  lemma {:induction false} ChainPlaceholders(m: nat, n: nat)
    ensures Placeholders(ChainTokens(m, n)) == Range(n + 1, n + 2 * m + 1)
    decreases m
  {
    if m > 0 {
      PairPlaceholders(n);
      if m > 1 {
        var more := ChainTokens(m - 1, n + 2);
        ChainPlaceholders(m - 1, n + 2);
        JoinPlaceholders(Word("OR"), more, []);
        assert more + [] == more;
        PlaceholdersAppend(PairTokens(n), [Word("OR")] + more);
        RangeJoin(n + 1, n + 3, n + 2 * m + 1);
      }
    }
  }

  lemma ScopePlaceholders(prefixes: seq<string>, n: nat)
    ensures Placeholders(ScopeTokens(prefixes, n)) ==
            if "/" in prefixes then [] else Range(n + 1, n + 2 * |prefixes| + 1)
  {
    PlainTokens([Word("FALSE")]);
    PlainTokens([Word("TRUE")]);
    if prefixes != [] && "/" !in prefixes {
      ChainPlaceholders(|prefixes|, n);
      BracketPlaceholders([LParen], ChainTokens(|prefixes|, n), [RParen]);
    }
  }

  // ----- every bind is named exactly once --------------------------------------------------------------

  function Words(ws: seq<string>): seq<Token> {
    seq(|ws|, i requires 0 <= i < |ws| => Word(ws[i]))
  }

  lemma {:induction false} LexSpaced(ws: seq<string>)
    requires forall w | w in ws :: Plain(w)
    ensures Lex(Spaced(ws)) == Words(ws)
  {
    if ws != [] {
      var more := Spaced(ws[1..]);
      LexSpaced(ws[1..]);
      assert ws[0] in ws;
      LexSpace(ws[0] + more);
      LexWord(ws[0], more);
      assert Words(ws) == [Word(ws[0])] + Words(ws[1..]);
    }
  }

  lemma TailWordsArePlain()
    ensures Plain("ORDER") && Plain("BY") && Plain("LIMIT") && Plain("OFFSET") && Plain("ASC") && Plain("DESC")
  {
  }

  lemma SortColumnIsGood(sortBy: string)
    ensures GoodColumn(SortColumn(sortBy))
  {
    OwnColumnsAreGood();
    match FieldOf(sortBy)
    case Some(f) => ColumnsAreGood(f);
    case None =>
  }

  lemma LexPaging(column: string, order: string, n: nat)
    requires GoodColumn(column) && (order == "ASC" || order == "DESC")
    ensures Lex(Spaced(PagingWords(column, order, n))) == Words(PagingWords(column, order, n))
  {
    TailWordsArePlain();
    PlaceholderOf(n + 1);
    PlaceholderOf(n + 2);
    LexSpaced(PagingWords(column, order, n));
  }

  lemma TwoParameters(head: seq<Token>, p: string, w: Token, q: string)
    requires (forall t | t in head :: NoParameter(t)) && NoParameter(w)
    requires Placeholder(p).Some? && Placeholder(q).Some?
    ensures Placeholders(head + ([Word(p)] + [w, Word(q)])) == [Placeholder(p).value, Placeholder(q).value]
  {
    PlainTokens(head);
    PlaceholdersAppend(head, [Word(p)] + [w, Word(q)]);
    PlaceholdersAppend([Word(p)], [w, Word(q)]);
    JoinPlaceholders(w, [Word(q)], []);
    assert [w] + ([Word(q)] + []) == [w, Word(q)];
    assert Placeholders([]) == [] && [Word(p)][1..] == [] && [Word(q)][1..] == [];
  }

  lemma PagingPlaceholders(column: string, order: string, n: nat)
    requires GoodColumn(column) && (order == "ASC" || order == "DESC")
    ensures Placeholders(Words(PagingWords(column, order, n))) == [n + 1, n + 2]
  {
    PlaceholderOf(n + 1);
    PlaceholderOf(n + 2);
    var head := [Word("ORDER"), Word("BY"), Word(column), Word(order), Word("LIMIT")];
    TwoParameters(head, "$" + Dec(n + 1), Word("OFFSET"), "$" + Dec(n + 2));
    assert Words(PagingWords(column, order, n)) ==
           head + ([Word("$" + Dec(n + 1))] + [Word("OFFSET"), Word("$" + Dec(n + 2))]);
  }

  /** Binds past an unscoped `/` have no placeholder, which happens exactly when `/` is
      granted but not first. */
  predicate RootComesFirst(a: Access) {
    a.role == Restricted && "/" in a.prefixes ==> a.prefixes[0] == "/"
  }

  lemma {:induction false} ScopeBindsLength(prefixes: seq<string>)
    ensures "/" !in prefixes ==> |ScopeBinds(prefixes)| == 2 * |prefixes|
    ensures "/" in prefixes ==> (|ScopeBinds(prefixes)| == 0 <==> prefixes[0] == "/")
  {
    if prefixes != [] && prefixes[0] != "/" {
      ScopeBindsLength(prefixes[1..]);
    }
  }

  /** How many of the clause's binds its text names. */
  function NamedBinds(items: seq<Item>, a: Access): nat {
    |items| + if a.role == Restricted && "/" !in a.prefixes then 2 * |a.prefixes| else 0
  }

  lemma ScopedPlaceholders(rules: seq<Token>, scope: seq<Token>)
    ensures Placeholders([LParen] + rules + [RParen] + ([Word("AND")] + scope)) ==
            Placeholders(rules) + Placeholders(scope)
  {
    BracketPlaceholders([LParen], rules, [RParen]);
    JoinPlaceholders(Word("AND"), scope, []);
    assert scope + [] == scope;
    PlaceholdersAppend([LParen] + rules + [RParen], [Word("AND")] + scope);
  }

  lemma RestrictedPlaceholders(items: seq<Item>, prefixes: seq<string>)
    requires items != [] && GoodItems(items)
    ensures Placeholders([LParen] + WhereTokens(items) + [RParen]
                         + ([Word("AND")] + ScopeTokens(prefixes, |items|))) ==
            Range(1, |items| + (if "/" in prefixes then 0 else 2 * |prefixes|) + 1)
  {
    WherePlaceholders(items);
    ScopePlaceholders(prefixes, |items|);
    ScopedPlaceholders(WhereTokens(items), ScopeTokens(prefixes, |items|));
    RangeJoin(1, |items| + 1, |items| + 2 * |prefixes| + 1);
  }

  lemma ClausePlaceholders(items: seq<Item>, a: Access)
    requires items != [] && GoodItems(items)
    ensures Placeholders(FinalTokens(items, a)) == Range(1, NamedBinds(items, a) + 1)
  {
    if a.role == Restricted {
      RestrictedPlaceholders(items, a.prefixes);
    } else {
      WherePlaceholders(items);
    }
  }

  /** Sorting knows the searchable fields but not the two identity names. */
  lemma SortColumnIs(sortBy: string)
    ensures SortColumn(sortBy) ==
            if Searchable(sortBy) && sortBy != "user" && sortBy != "group" then SearchedColumn(sortBy) else "f.path"
  {
    SearchableFields(sortBy);
    if Searchable(sortBy) { FieldsAreNamed(sortBy); }
  }

  function PagingTokens(column: string, direction: string, n: nat): seq<Token> {
    [Word("ORDER"), Word("BY"), Word(column), Word(direction),
     Word("LIMIT"), Word("$" + Dec(n + 1)), Word("OFFSET"), Word("$" + Dec(n + 2))]
  }

  lemma PagingIsRead(column: string, direction: string, n: nat)
    ensures Words(PagingWords(column, direction, n)) == PagingTokens(column, direction, n)
  {
  }

  /** Read as tokens: after the clause the order, then the limit before the offset. */
  lemma QueryReads(items: seq<Item>, a: Access, sortBy: string, order: string, n: nat)
    requires items != [] && GoodItems(items)
    ensures var direction := if IsDesc(order) then "DESC" else "ASC";
            Lex(QueryText(FinalWhere(items, a), SortColumn(sortBy), OrderWord(order), n)) ==
            FinalTokens(items, a) + PagingTokens(SortColumn(sortBy), direction, n)
  {
    var ws := PagingWords(SortColumn(sortBy), OrderWord(order), n);
    LexFinal(items, a);
    SortColumnIsGood(sortBy);
    LexPaging(SortColumn(sortBy), OrderWord(order), n);
    LexAppend(FinalWhere(items, a), Spaced(ws));
    PagingIsRead(SortColumn(sortBy), OrderWord(order), n);
  }

  lemma QueryPlaceholders(items: seq<Item>, a: Access, sortBy: string, order: string, n: nat)
    requires items != [] && GoodItems(items)
    ensures Placeholders(Lex(QueryText(FinalWhere(items, a), SortColumn(sortBy), OrderWord(order), n))) ==
            Range(1, NamedBinds(items, a) + 1) + [n + 1, n + 2]
  {
    var ws := PagingWords(SortColumn(sortBy), OrderWord(order), n);
    LexFinal(items, a);
    ClausePlaceholders(items, a);
    SortColumnIsGood(sortBy);
    LexPaging(SortColumn(sortBy), OrderWord(order), n);
    PagingPlaceholders(SortColumn(sortBy), OrderWord(order), n);
    LexAppend(FinalWhere(items, a), Spaced(ws));
    PlaceholdersAppend(FinalTokens(items, a), Words(ws));
  }

  lemma RangeComplete(k: nat, n: nat)
    ensures Range(1, k + 1) + [n + 1, n + 2] == Range(1, n + 3) <==> k == n
  {
    if k == n {
      assert Range(1, n + 1) + [n + 1, n + 2] == Range(1, n + 3);
    } else {
      assert |Range(1, k + 1) + [n + 1, n + 2]| != |Range(1, n + 3)|;
    }
  }

  lemma AllBindsNamed(items: seq<Item>, a: Access)
    ensures NamedBinds(items, a) == |FinalBinds(items, a)| <==> RootComesFirst(a)
  {
    ScopeBindsLength(a.prefixes);
  }

  /** The query's placeholders are $1, $2, … in order, one for each bind with
      limit and offset last, if and only if `/` is not granted behind another prefix. */
  lemma EveryBindIsNamedOnce(parse: NumberParser, rules: seq<SearchRule>, a: Access, sortBy: string, order: string)
    requires rules != [] && Compiles(parse, rules)
    ensures var items := ItemsOf(parse, rules);
            var n := |FinalBinds(items, a)|;
            var text := QueryText(FinalWhere(items, a), SortColumn(sortBy), OrderWord(order), n);
            Placeholders(Lex(text)) == Range(1, n + 3) <==> RootComesFirst(a)
  {
    var items := ItemsOf(parse, rules);
    var n := |FinalBinds(items, a)|;
    ItemsAreGood(parse, rules);
    QueryPlaceholders(items, a, sortBy, order, n);
    RangeComplete(NamedBinds(items, a), n);
    AllBindsNamed(items, a);
  }

  /** Access resolution sorts absolute prefixes, so `/` does come first. */
  lemma SortedRootComesFirst(prefixes: seq<string>)
    requires Sorted(prefixes) && forall p | p in prefixes :: p != "" && p[0] == '/'
    ensures "/" in prefixes ==> prefixes[0] == "/"
  {
    if "/" in prefixes {
      HeadIsLeast(prefixes);
      var p := prefixes[0];
      assert Le(p, "/") && p in prefixes;
      assert "/"[1..] == "" && p == [p[0]] + p[1..];
      assert Le(p[1..], "");
    }
  }

  /** The prefixes access resolution gives, sorted and canonical, never have `/` behind another. */
  lemma ResolvedRootComesFirst(a: Access)
    requires StrictlySorted(a.prefixes) && forall p | p in a.prefixes :: Canonical(p)
    ensures RootComesFirst(a)
  {
    forall p | p in a.prefixes
      ensures p != "" && p[0] == '/'
    {
      RenderStartsWithSlash(Names(p));
    }
    SortedRootComesFirst(a.prefixes);
  }
}
