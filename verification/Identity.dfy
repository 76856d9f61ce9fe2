/** How fs_api/auth.go turns a sign-in identity into a Unix name: the longest matching suffix
    rule wins. `lower` is lowercasing, one fixed idempotent function. */
module Identity {
  import opened Text

  datatype Rule = Rule(matchSuffix: string, replaceWith: string)

  type Lowering = string -> string

  predicate HasSuffix(s: string, suffix: string) {
    |suffix| <= |s| && s[|s| - |suffix|..] == suffix
  }

  predicate MatchesRule(lower: Lowering, id: string, rule: Rule) {
    HasSuffix(id, lower(rule.matchSuffix))
  }

  function Rewritten(lower: Lowering, id: string, rule: Rule): string
    requires MatchesRule(lower, id, rule)
  {
    id[..|id| - |lower(rule.matchSuffix)|] + lower(rule.replaceWith)
  }

  predicate Longer(lower: Lowering, a: Rule, b: Rule) {
    |lower(a.matchSuffix)| > |lower(b.matchSuffix)|
  }

  /** The first of the longest matching rules. */
  function Best(lower: Lowering, id: string, rules: seq<Rule>): (best: Option<Rule>)
    ensures best.Some? ==> best.value in rules && MatchesRule(lower, id, best.value)
  {
    if rules == [] then None
    else
      var before, last := Best(lower, id, rules[..|rules| - 1]), rules[|rules| - 1];
      if MatchesRule(lower, id, last) && (before.None? || Longer(lower, last, before.value)) then Some(last) else before
  }

  /** The name an identity maps to: by its best rule, or without its domain. */
  function Mapped(lower: Lowering, identity: string, rules: seq<Rule>): string {
    var id := lower(identity);
    match Best(lower, id, rules)
    case None => Split(id, '@')[0]
    case Some(rule) => Rewritten(lower, id, rule)
  }

  method MapIdentity(lower: Lowering, identity: string, rules: seq<Rule>) returns (name: string)
    ensures name == Mapped(lower, identity, rules)
  {
    var id := lower(identity);
    var best, bestSuffix := -1, "";
    for i := 0 to |rules|
      invariant -1 <= best < i
      invariant Best(lower, id, rules[..i]) == if best < 0 then None else Some(rules[best])
      invariant best >= 0 ==> bestSuffix == lower(rules[best].matchSuffix)
    {
      assert rules[..i + 1][..i] == rules[..i];
      var s := lower(rules[i].matchSuffix);
      if HasSuffix(id, s) && (best < 0 || |s| > |bestSuffix|) {
        best, bestSuffix := i, s;
      }
    }
    assert rules[..|rules|] == rules;
    if best < 0 {
      name := Split(id, '@')[0];
    } else {
      name := id[..|id| - |bestSuffix|] + lower(rules[best].replaceWith);
    }
  }

  /** No matching rule is longer than the best one, and one is found when any matches. */
  lemma {:induction false} BestIsLongest(lower: Lowering, id: string, rules: seq<Rule>, rule: Rule)
    requires rule in rules && MatchesRule(lower, id, rule)
    ensures Best(lower, id, rules).Some? && !Longer(lower, rule, Best(lower, id, rules).value)
  {
    if rule in rules[..|rules| - 1] {
      BestIsLongest(lower, id, rules[..|rules| - 1], rule);
    }
  }

  /** The rule's suffix gives way to its replacement, and what stands before it stays. */
  ghost predicate RewrittenBy(lower: Lowering, id: string, rule: Rule, name: string) {
    exists head :: id == head + lower(rule.matchSuffix) && name == head + lower(rule.replaceWith)
  }

  /** What the mapped name is: rewritten by a rule that no other matching rule is longer than,
      or, when no rule matches, what stands before the first `@`. */
  lemma MappedMeans(lower: Lowering, identity: string, rules: seq<Rule>)
    ensures var id, name := lower(identity), Mapped(lower, identity, rules);
            if exists rule :: rule in rules && MatchesRule(lower, id, rule) then
              exists rule :: rule in rules && RewrittenBy(lower, id, rule, name) &&
                forall other | other in rules && MatchesRule(lower, id, other) :: !Longer(lower, other, rule)
            else name <= id && '@' !in name && (name == id || id[|name|] == '@')
  {
    var id, name := lower(identity), Mapped(lower, identity, rules);
    if rule :| rule in rules && MatchesRule(lower, id, rule) {
      BestIsLongest(lower, id, rules, rule);
      var best := Best(lower, id, rules).value;
      var head := id[..|id| - |lower(best.matchSuffix)|];
      assert id == head + lower(best.matchSuffix);
      forall other | other in rules && MatchesRule(lower, id, other)
        ensures !Longer(lower, other, best)
      {
        BestIsLongest(lower, id, rules, other);
      }
    } else {
      FirstPiece(id, '@');
    }
  }

  lemma {:induction false} FirstPiece(s: string, sep: char)
    ensures var piece := Split(s, sep)[0];
            piece <= s && sep !in piece && (piece == s || s[|piece|] == sep)
  {
    if s != "" {
      FirstPiece(s[1..], sep);
      assert s == [s[0]] + s[1..];
    }
  }

  // ----- does the order of the rules matter? -----------------------------------------------

  /** Rules with the same suffix, lowercased, agree on the replacement. */
  ghost predicate Unambiguous(lower: Lowering, rules: seq<Rule>) {
    forall a, b | a in rules && b in rules && lower(a.matchSuffix) == lower(b.matchSuffix) ::
      lower(a.replaceWith) == lower(b.replaceWith)
  }

  /** Two suffixes of one string that are equally long are the same. */
  lemma SameLengthSuffix(lower: Lowering, id: string, a: Rule, b: Rule)
    requires MatchesRule(lower, id, a) && MatchesRule(lower, id, b)
    requires !Longer(lower, a, b) && !Longer(lower, b, a)
    ensures lower(a.matchSuffix) == lower(b.matchSuffix)
  {}

  /** Unambiguous rules map every identity alike in whatever order they are loaded. */
  lemma OrderIrrelevant(lower: Lowering, identity: string, a: seq<Rule>, b: seq<Rule>)
    requires multiset(a) == multiset(b) && Unambiguous(lower, a)
    ensures Mapped(lower, identity, a) == Mapped(lower, identity, b)
  {
    var id := lower(identity);
    var x, y := Best(lower, id, a), Best(lower, id, b);
    SameMembers(a, b);
    if x.Some? {
      BestIsLongest(lower, id, b, x.value);
    }
    if y.Some? {
      BestIsLongest(lower, id, a, y.value);
      SameLengthSuffix(lower, id, x.value, y.value);
    }
  }

  /** With the rule in front, an identity that is its lowercased suffix maps to its replacement. */
  lemma {:induction false} FrontIsBest(lower: Lowering, front: Rule, rest: seq<Rule>)
    ensures Best(lower, lower(front.matchSuffix), [front] + rest) == Some(front)
  {
    var id, rules := lower(front.matchSuffix), [front] + rest;
    assert id[|id| - |id|..] == id;
    if rest == [] {
      assert rules == [front] && rules[..0] == [];
    } else {
      FrontIsBest(lower, front, rest[..|rest| - 1]);
      assert rules[..|rules| - 1] == [front] + rest[..|rest| - 1];
    }
  }

  lemma FrontIsMapped(lower: Lowering, front: Rule, rest: seq<Rule>)
    requires lower(lower(front.matchSuffix)) == lower(front.matchSuffix)
    ensures Mapped(lower, lower(front.matchSuffix), [front] + rest) == lower(front.replaceWith)
  {
    FrontIsBest(lower, front, rest);
    var id := lower(front.matchSuffix);
    assert id[..|id| - |id|] + lower(front.replaceWith) == lower(front.replaceWith);
  }

  lemma ToFront(rules: seq<Rule>, rule: Rule) returns (rest: seq<Rule>)
    requires rule in rules
    ensures multiset([rule] + rest) == multiset(rules)
  {
    var k :| 0 <= k < |rules| && rules[k] == rule;
    rest := rules[..k] + rules[k + 1..];
    assert rules == rules[..k] + ([rules[k]] + rules[k + 1..]);
  }

  /** Ambiguous rules can be ordered in two ways that map one identity to two names. */
  lemma OrderMatters(lower: Lowering, rules: seq<Rule>)
    returns (a: seq<Rule>, b: seq<Rule>, identity: string)
    requires !Unambiguous(lower, rules) && forall s :: lower(lower(s)) == lower(s)
    ensures multiset(a) == multiset(b) == multiset(rules)
    ensures Mapped(lower, identity, a) != Mapped(lower, identity, b)
  {
    var p, q :| p in rules && q in rules && lower(p.matchSuffix) == lower(q.matchSuffix)
                && lower(p.replaceWith) != lower(q.replaceWith);
    var restA := ToFront(rules, p);
    var restB := ToFront(rules, q);
    a, b, identity := [p] + restA, [q] + restB, lower(p.matchSuffix);
    FrontIsMapped(lower, p, restA);
    FrontIsMapped(lower, q, restB);
  }

  /** The admin page stores rules lowercased under a UNIQUE suffix. */
  lemma StoredRulesAreUnambiguous(lower: Lowering, rules: seq<Rule>)
    requires forall r | r in rules :: lower(r.matchSuffix) == r.matchSuffix
    requires forall a, b | a in rules && b in rules && a.matchSuffix == b.matchSuffix :: a == b
    ensures Unambiguous(lower, rules)
  {}
}
