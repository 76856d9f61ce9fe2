/** SQL LIKE with backslash as the escape character, and the escaping that makes user
    input match literally. */
module Like {

  predicate Special(c: char) {
    c == '\\' || c == '%' || c == '_'
  }

  /** Section 8.5 of ISO/IEC 9075-2:2003. A pattern ending in a lone escape is an error to
      the server; it matches nothing here, and no escaped pattern ends so. */
  predicate Matches(pattern: string, s: string)
    decreases |pattern|, |s|
  {
    if pattern == "" then s == ""
    else if pattern[0] == '%' then Matches(pattern[1..], s) || (s != "" && Matches(pattern, s[1..]))
    else if pattern[0] == '_' then s != "" && Matches(pattern[1..], s[1..])
    else if pattern[0] == '\\' then |pattern| > 1 && s != "" && s[0] == pattern[1] && Matches(pattern[2..], s[1..])
    else s != "" && s[0] == pattern[0] && Matches(pattern[1..], s[1..])
  }

  /** One pass of the three replacements `\` → `\\`, `%` → `\%`, `_` → `\_`. */
  function EscapeLike(s: string): string {
    if s == "" then "" else EscapeChar(s[0]) + EscapeLike(s[1..])
  }

  function EscapeChar(c: char): string {
    if Special(c) then ['\\', c] else [c]
  }

  /** An escaped value matches itself and nothing else, whatever follows it. */
  lemma {:induction false} EscapedMatchesLiterally(v: string, rest: string, s: string)
    ensures Matches(EscapeLike(v) + rest, s) <==> v <= s && Matches(rest, s[|v|..])
  {
    var p := EscapeLike(v) + rest;
    if v == "" {
      assert p == rest && s[0..] == s;
    } else {
      if Special(v[0]) {
        assert p[0] == '\\' && p[1] == v[0] && p[2..] == EscapeLike(v[1..]) + rest;
      } else {
        assert p[0] == v[0] && p[1..] == EscapeLike(v[1..]) + rest;
      }
      if s != "" && s[0] == v[0] {
        EscapedMatchesLiterally(v[1..], rest, s[1..]);
        assert v == [v[0]] + v[1..] && s == [s[0]] + s[1..];
        assert v <= s <==> v[1..] <= s[1..];
        if v <= s { assert s[1..][|v| - 1..] == s[|v|..]; }
      }
    }
  }

  lemma {:induction false} PercentSkips(rest: string, s: string)
    ensures Matches("%" + rest, s) <==> exists k :: 0 <= k <= |s| && Matches(rest, s[k..])
  {
    var p := "%" + rest;
    assert p[1..] == rest && s[0..] == s;
    if s != "" {
      PercentSkips(rest, s[1..]);
      if Matches(p, s[1..]) {
        var k :| 0 <= k <= |s[1..]| && Matches(rest, s[1..][k..]);
        assert s[1..][k..] == s[k + 1..];
      }
      if k :| 0 < k <= |s| && Matches(rest, s[k..]) {
        assert s[1..][k - 1..] == s[k..];
      }
    }
  }

  lemma PercentMatchesAll(s: string)
    ensures Matches("%", s)
  {
    PercentSkips("", s);
    assert "%" + "" == "%" && s[|s|..] == "";
  }

  ghost predicate Contains(s: string, v: string) {
    exists k :: 0 <= k <= |s| && v <= s[k..]
  }

  predicate EndsWith(s: string, v: string) {
    |v| <= |s| && s[|s| - |v|..] == v
  }

  lemma StartsWithPattern(v: string, s: string)
    ensures Matches(EscapeLike(v) + "%", s) <==> v <= s
  {
    EscapedMatchesLiterally(v, "%", s);
    if v <= s { PercentMatchesAll(s[|v|..]); }
  }

  lemma ContainsPattern(v: string, s: string)
    ensures Matches("%" + EscapeLike(v) + "%", s) <==> Contains(s, v)
  {
    var rest := EscapeLike(v) + "%";
    assert "%" + EscapeLike(v) + "%" == "%" + rest;
    PercentSkips(rest, s);
    forall k | 0 <= k <= |s| ensures Matches(rest, s[k..]) <==> v <= s[k..] {
      StartsWithPattern(v, s[k..]);
    }
  }

  lemma EndsWithPattern(v: string, s: string)
    ensures Matches("%" + EscapeLike(v), s) <==> EndsWith(s, v)
  {
    PercentSkips(EscapeLike(v), s);
    forall k | 0 <= k <= |s| ensures Matches(EscapeLike(v), s[k..]) <==> s[k..] == v {
      EscapedMatchesLiterally(v, "", s[k..]);
      assert EscapeLike(v) + "" == EscapeLike(v);
    }
    if EndsWith(s, v) {
      assert Matches(EscapeLike(v), s[|s| - |v|..]);
    }
  }

  // ----- ILIKE ---------------------------------------------------------------------------

  /** Case folding, character by character. */
  function Fold(fold: char -> string, s: string): string {
    if s == "" then "" else fold(s[0]) + Fold(fold, s[1..])
  }

  /** Folding concerns letters only: the pattern characters fold to themselves and
      nothing else folds to them. */
  ghost predicate FoldKeepsSpecials(fold: char -> string) {
    && (forall c | Special(c) :: fold(c) == [c])
    && (forall c, d | !Special(c) && Special(d) :: d !in fold(c))
  }

  predicate ILike(fold: char -> string, s: string, pattern: string) {
    Matches(Fold(fold, pattern), Fold(fold, s))
  }

  lemma {:induction false} FoldAppend(fold: char -> string, a: string, b: string)
    ensures Fold(fold, a + b) == Fold(fold, a) + Fold(fold, b)
  {
    if a == "" {
      assert a + b == b;
    } else {
      assert (a + b)[1..] == a[1..] + b;
      FoldAppend(fold, a[1..], b);
    }
  }

  lemma {:induction false} EscapeAppend(a: string, b: string)
    ensures EscapeLike(a + b) == EscapeLike(a) + EscapeLike(b)
  {
    if a == "" {
      assert a + b == b;
    } else {
      assert (a + b)[1..] == a[1..] + b;
      EscapeAppend(a[1..], b);
    }
  }

  lemma {:induction false} EscapePlain(s: string)
    requires forall c | c in s :: !Special(c)
    ensures EscapeLike(s) == s
  {
    if s != "" {
      EscapePlain(s[1..]);
    }
  }

  lemma FoldEscapeChar(fold: char -> string, c: char)
    requires FoldKeepsSpecials(fold)
    ensures Fold(fold, EscapeChar(c)) == EscapeLike(fold(c))
  {
    if Special(c) {
      assert ['\\', c][1..] == [c] && [c][1..] == "";
      assert Fold(fold, [c]) == [c];
      assert Special('\\');
    } else {
      EscapePlain(fold(c));
      assert [c][1..] == "";
    }
  }

  /** Folding an escaped pattern is escaping the folded value. */
  lemma {:induction false} FoldEscape(fold: char -> string, v: string)
    requires FoldKeepsSpecials(fold)
    ensures Fold(fold, EscapeLike(v)) == EscapeLike(Fold(fold, v))
  {
    if v != "" {
      FoldEscape(fold, v[1..]);
      FoldEscapeChar(fold, v[0]);
      FoldAppend(fold, EscapeChar(v[0]), EscapeLike(v[1..]));
      EscapeAppend(fold(v[0]), Fold(fold, v[1..]));
    }
  }

  lemma FoldPercent(fold: char -> string)
    requires FoldKeepsSpecials(fold)
    ensures Fold(fold, "%") == "%"
  {
    assert Special('%') && "%"[1..] == "";
  }

  /** The three search operators are literal tests on the folded strings. */
  lemma {:induction false} ILikeIsLiteral(fold: char -> string, v: string, s: string)
    requires FoldKeepsSpecials(fold)
    ensures ILike(fold, s, "%" + EscapeLike(v) + "%") <==> Contains(Fold(fold, s), Fold(fold, v))
    ensures ILike(fold, s, EscapeLike(v) + "%") <==> Fold(fold, v) <= Fold(fold, s)
    ensures ILike(fold, s, "%" + EscapeLike(v)) <==> EndsWith(Fold(fold, s), Fold(fold, v))
  {
    FoldPercent(fold);
    FoldEscape(fold, v);
    FoldAppend(fold, "%", EscapeLike(v));
    FoldAppend(fold, "%" + EscapeLike(v), "%");
    FoldAppend(fold, EscapeLike(v), "%");
    ContainsPattern(Fold(fold, v), Fold(fold, s));
    StartsWithPattern(Fold(fold, v), Fold(fold, s));
    EndsWithPattern(Fold(fold, v), Fold(fold, s));
  }
}
