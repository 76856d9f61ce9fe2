/** What a restricted user may see: stored grants, `{user}` expansion and the path test. */
module Access {
  import opened Text
  import opened Paths

  datatype Role = Admin | Viewer | Restricted

  datatype Access = Access(role: Role, prefixes: seq<string>)

  /** Whether `p` is one of the prefixes or lies below one. */
  predicate UnderPrefix(prefixes: seq<string>, p: string) {
    exists pre | pre in prefixes :: pre == "/" || p == pre || pre + "/" <= p
  }

  predicate Allows(a: Access, p: string) {
    a.role != Restricted || (p != "" && p[0] == '/' && Clean(p) == p && UnderPrefix(a.prefixes, p))
  }

  /** On any path at all, the test is "canonical and covered by a granted prefix". */
  lemma AllowsIsCoverage(a: Access, p: string)
    requires a.role == Restricted
    requires forall pre | pre in a.prefixes :: Canonical(pre)
    ensures Allows(a, p) <==> Canonical(p) && exists pre :: pre in a.prefixes && Covers(pre, p)
  {
    if p != "" && p[0] == '/' { CleanCharacterizesCanonical(p); }
    if Canonical(p) {
      RenderStartsWithSlash(Names(p));
      if UnderPrefix(a.prefixes, p) {
        var pre :| pre in a.prefixes && (pre == "/" || p == pre || pre + "/" <= p);
        assert Covers(pre, p) by { if pre == "/" { assert "/" <= p; } }
      }
    }
  }

  // ----- {user} ---------------------------------------------------------------------------

  const UserMark: string := "{user}"

  function GrantUser(name: string): Option<string> {
    if name == "" || name == "." || name == ".." || '/' in name || '\0' in name then None else Some(name)
  }

  /** strings.Contains(s, "{user}") */
  predicate HasUser(s: string) {
    UserMark <= s || (s != "" && HasUser(s[1..]))
  }

  /** strings.ReplaceAll(s, "{user}", name): leftmost first, never rescanning. */
  function ReplaceUser(s: string, name: string): string {
    if UserMark <= s then name + ReplaceUser(s[|UserMark|..], name)
    else if s == "" then ""
    else [s[0]] + ReplaceUser(s[1..], name)
  }

  /** The path a stored grant gives to a user; "" when `{user}` cannot be filled safely. */
  function GrantPath(stored: string, unixUser: string): string {
    if !HasUser(stored) then stored
    else match GrantUser(unixUser) case None => "" case Some(name) => ReplaceUser(stored, name)
  }

  /** The names that may be filled in: one component, and no NUL in it. */
  predicate Fillable(name: string) {
    IsName(name) && '\0' !in name
  }

  lemma AcceptedNames(name: string)
    ensures GrantUser(name) == if Fillable(name) then Some(name) else None
  {
  }

  /** What a stored grant may give a user: itself with every mark filled in, or, for a name
      that cannot be filled in, itself if it has no mark. */
  ghost predicate Gives(g: string, unixUser: string, p: string) {
    if Fillable(unixUser) then p == ReplaceUser(g, unixUser) else p == g && !HasUser(g)
  }

  /** The prefixes are what the grants give. */
  ghost predicate ResolvesTo(grants: seq<string>, unixUser: string, prefixes: seq<string>) {
    forall p :: p in prefixes <==> p != "" && exists g :: g in grants && Gives(g, unixUser, p)
  }

  lemma GivesItsPath(g: string, unixUser: string, p: string)
    ensures p != "" ==> (Gives(g, unixUser, p) <==> GrantPath(g, unixUser) == p)
  {
    AcceptedNames(unixUser);
    if !HasUser(g) { ReplaceUnmarked(g, unixUser); }
  }

  lemma ResolvedOneMore(grants: seq<string>, unixUser: string, i: nat, before: seq<string>, after: seq<string>)
    requires i < |grants| && ResolvesTo(grants[..i], unixUser, before)
    requires var path := GrantPath(grants[i], unixUser); after == if path != "" then before + [path] else before
    ensures ResolvesTo(grants[..i + 1], unixUser, after)
  {
    var g := grants[i];
    assert grants[..i + 1] == grants[..i] + [g];
    forall p ensures p in after <==> p != "" && exists x :: x in grants[..i + 1] && Gives(x, unixUser, p) {
      GivesItsPath(g, unixUser, p);
      assert p in before <==> p != "" && exists x :: x in grants[..i] && Gives(x, unixUser, p);
      assert g in grants[..i + 1];
    }
  }

  /** The grant loop, sort and compact of access resolution. */
  method ResolvePrefixes(grants: seq<string>, unixUser: string) returns (prefixes: seq<string>)
    ensures StrictlySorted(prefixes)
    ensures ResolvesTo(grants, unixUser, prefixes)
    ensures (forall g | g in grants :: Canonical(g)) ==> forall p | p in prefixes :: Canonical(p)
  {
    prefixes := [];
    for i := 0 to |grants|
      invariant ResolvesTo(grants[..i], unixUser, prefixes)
    {
      var path := GrantPath(grants[i], unixUser);
      ghost var before := prefixes;
      if path != "" {
        prefixes := prefixes + [path];
      }
      ResolvedOneMore(grants, unixUser, i, before, prefixes);
    }
    assert grants[..|grants|] == grants;
    SortSorted(prefixes);
    SortMembers(prefixes);
    CompactStrictlySorted(Sort(prefixes));
    prefixes := Compact(Sort(prefixes));
    if forall g | g in grants :: Canonical(g) {
      ResolvedAreCanonical(grants, unixUser, prefixes);
    }
  }

  lemma {:induction false} ReplaceUnmarked(s: string, name: string)
    requires !HasUser(s)
    ensures ReplaceUser(s, name) == s
  {
    if s != "" { ReplaceUnmarked(s[1..], name); }
  }

  /** The first mark is replaced whole, and what follows it on its own. */
  lemma ReplaceAtMark(pre: string, post: string, name: string)
    requires !HasUser(pre)
    ensures HasUser(pre + "{user}" + post)
    ensures ReplaceUser(pre + "{user}" + post, name) == pre + name + ReplaceUser(post, name)
  {
    ReplaceFirst(pre, "{user}", post, name);
  }

  lemma {:induction false} ReplaceFirst(pre: string, mark: string, post: string, name: string)
    requires mark == UserMark && !HasUser(pre)
    ensures HasUser(pre + mark + post)
    ensures ReplaceUser(pre + mark + post, name) == pre + name + ReplaceUser(post, name)
  {
    var s := pre + mark + post;
    if pre == "" {
      assert s == mark + post && s[|mark|..] == post;
    } else {
      NoEarlyMark(pre, mark, post);
      assert s[1..] == pre[1..] + mark + post && s[0] == pre[0];
      ReplaceFirst(pre[1..], mark, post, name);
      Assoc([pre[0]], pre[1..], name, ReplaceUser(post, name));
    }
  }

  /** A mark cannot begin before another one and run into it. */
  lemma NoEarlyMark(pre: string, mark: string, post: string)
    requires mark == UserMark && pre != "" && !HasUser(pre)
    ensures !(mark <= pre + mark + post)
  {
    var s := pre + mark + post;
    if |pre| >= |mark| {
      assert s[..|mark|] == pre[..|mark|];
    } else {
      assert s[|pre|] == mark[0] && mark[|pre|] != mark[0];
    }
  }

  lemma MarkBeforeSlash(a: string, b: string)
    ensures UserMark <= a + "/" + b <==> UserMark <= a
  {
    var s := a + "/" + b;
    assert s[|a|] == '/' && '/' !in UserMark;
    assert UserMark <= s ==> forall i | 0 <= i < |UserMark| :: s[i] == UserMark[i];
    if |a| >= |UserMark| {
      assert s[..|UserMark|] == a[..|UserMark|];
    }
  }

  lemma {:induction false} MarkCut(a: string, b: string)
    ensures HasUser(a + "/" + b) <==> HasUser(a) || HasUser(b)
  {
    var s := a + "/" + b;
    MarkBeforeSlash(a, b);
    if a == "" {
      assert s[1..] == b;
    } else {
      assert s[1..] == a[1..] + "/" + b;
      MarkCut(a[1..], b);
    }
  }

  lemma Assoc(a: string, b: string, c: string, d: string)
    ensures (a + b) + c + d == a + (b + c + d)
  {
  }

  /** The mark holds no separator, so it is replaced component by component. */
  lemma {:induction false} ReplaceCut(a: string, b: string, slash: string, name: string)
    requires slash == "/"
    ensures ReplaceUser(a + slash + b, name) == ReplaceUser(a, name) + slash + ReplaceUser(b, name)
    decreases |a|
  {
    var s := a + slash + b;
    MarkBeforeSlash(a, b);
    if UserMark <= a {
      var more := a[|UserMark|..];
      assert s[|UserMark|..] == more + slash + b;
      ReplaceCut(more, b, slash, name);
      Assoc(name, ReplaceUser(more, name), slash, ReplaceUser(b, name));
    } else if a == "" {
      assert s == slash + b && s[1..] == b;
      assert [s[0]] == slash && "" + slash == slash;
    } else {
      assert s[1..] == a[1..] + slash + b && s[0] == a[0];
      ReplaceCut(a[1..], b, slash, name);
      Assoc([a[0]], ReplaceUser(a[1..], name), slash, ReplaceUser(b, name));
    }
  }

  function ReplaceEach(cs: seq<string>, name: string): (r: seq<string>)
    ensures |r| == |cs| && forall i | 0 <= i < |cs| :: r[i] == ReplaceUser(cs[i], name)
  {
    seq(|cs|, i requires 0 <= i < |cs| => ReplaceUser(cs[i], name))
  }

  lemma {:induction false} ReplaceFlat(cs: seq<string>, name: string)
    ensures ReplaceUser(Flat(cs), name) == Flat(ReplaceEach(cs, name))
    ensures HasUser(Flat(cs)) <==> exists i :: 0 <= i < |cs| && HasUser(cs[i])
  {
    if cs != [] {
      var n := |cs| - 1;
      ReplaceFlat(cs[..n], name);
      ReplaceCut(Flat(cs[..n]), cs[n], "/", name);
      MarkCut(Flat(cs[..n]), cs[n]);
      assert ReplaceEach(cs, name)[..n] == ReplaceEach(cs[..n], name);
      forall i | 0 <= i < n ensures cs[..n][i] == cs[i] {}
    }
  }

  /** A marked component keeps the whole name somewhere inside. */
  lemma {:induction false} NameSurvives(c: string, name: string) returns (pre: string, post: string)
    requires HasUser(c)
    ensures ReplaceUser(c, name) == pre + name + post
    decreases |c|
  {
    if UserMark <= c {
      pre, post := "", ReplaceUser(c[|UserMark|..], name);
    } else {
      pre, post := NameSurvives(c[1..], name);
      pre := [c[0]] + pre;
    }
  }

  lemma {:induction false} ReplaceAddsNoSlash(c: string, name: string)
    requires '/' !in c && '/' !in name
    ensures '/' !in ReplaceUser(c, name)
    decreases |c|
  {
    if UserMark <= c {
      ReplaceAddsNoSlash(c[|UserMark|..], name);
    } else if c != "" {
      assert c[0] in c;
      ReplaceAddsNoSlash(c[1..], name);
    }
  }

  lemma ReplacedIsName(c: string, name: string)
    requires IsName(c) && GrantUser(name).Some?
    ensures IsName(ReplaceUser(c, name))
  {
    ReplaceAddsNoSlash(c, name);
    if HasUser(c) {
      var pre, post := NameSurvives(c, name);
      var r := pre + name + post;
      assert |r| == |pre| + |name| + |post| && r[|pre|] == name[0];
      assert |name| >= 2 ==> r[|pre| + 1] == name[1];
      assert |name| == 1 ==> name == [name[0]];
      assert |name| == 2 ==> name == [name[0], name[1]];
    } else {
      ReplaceUnmarked(c, name);
    }
  }

  /** Filling `{user}` into a canonical stored prefix gives a canonical path with the same
      number of components: no accepted name climbs out or adds a level. */
  lemma {:induction false} ExpansionIsCanonical(stored: string, name: string)
    requires Canonical(stored) && GrantUser(name).Some?
    ensures var p := ReplaceUser(stored, name);
            Canonical(p) && Names(p) == ReplaceEach(Names(stored), name)
  {
    var cs := Names(stored);
    var ds := ReplaceEach(cs, name);
    forall d | d in ds ensures IsName(d) {
      var i :| 0 <= i < |ds| && ds[i] == d;
      ReplacedIsName(cs[i], name);
    }
    if cs == [] {
      assert stored == "/" && ds == [];
      ReplaceUnmarked("/", name);
    } else {
      ReplaceFlat(cs, name);
    }
    NamesOfRender(ds);
  }

  lemma GivenIsCanonical(g: string, unixUser: string, p: string)
    requires Canonical(g) && Gives(g, unixUser, p)
    ensures Canonical(p)
    ensures Names(p) == if Fillable(unixUser) then ReplaceEach(Names(g), unixUser) else Names(g)
  {
    AcceptedNames(unixUser);
    if Fillable(unixUser) { ExpansionIsCanonical(g, unixUser); }
  }

  /** Canonical stored grants resolve to canonical prefixes. */
  lemma ResolvedAreCanonical(grants: seq<string>, unixUser: string, prefixes: seq<string>)
    requires ResolvesTo(grants, unixUser, prefixes) && forall g | g in grants :: Canonical(g)
    ensures forall p | p in prefixes :: Canonical(p)
  {
    forall p | p in prefixes
      ensures Canonical(p)
    {
      var g :| g in grants && Gives(g, unixUser, p);
      GivenIsCanonical(g, unixUser, p);
    }
  }

  lemma {:induction false} LongerNameLongerPath(c: string, m: string, n: string)
    requires |m| < |n|
    ensures |ReplaceUser(c, m)| <= |ReplaceUser(c, n)|
    ensures HasUser(c) ==> |ReplaceUser(c, m)| < |ReplaceUser(c, n)|
    decreases |c|
  {
    if UserMark <= c {
      LongerNameLongerPath(c[|UserMark|..], m, n);
    } else if c != "" {
      LongerNameLongerPath(c[1..], m, n);
    }
  }

  lemma {:induction false} SameLengthSameName(c: string, m: string, n: string)
    requires HasUser(c) && |m| == |n| && ReplaceUser(c, m) == ReplaceUser(c, n)
    ensures m == n
    decreases |c|
  {
    if UserMark <= c {
      var r := ReplaceUser(c, m);
      assert m == r[..|m|] && n == r[..|n|];
    } else {
      var r := ReplaceUser(c, m);
      assert ReplaceUser(c[1..], m) == r[1..] == ReplaceUser(c[1..], n);
      SameLengthSameName(c[1..], m, n);
    }
  }

  /** However often the mark occurs in a component, the expansion determines the name. */
  lemma ExpansionDeterminesName(c: string, m: string, n: string)
    requires HasUser(c) && ReplaceUser(c, m) == ReplaceUser(c, n)
    ensures m == n
  {
    if |m| < |n| {
      LongerNameLongerPath(c, m, n);
    } else if |n| < |m| {
      LongerNameLongerPath(c, n, m);
    } else {
      SameLengthSameName(c, m, n);
    }
  }

  lemma NoMarkInRoot()
    ensures !HasUser("/")
  {
    assert !HasUser("/"[1..]);
  }

  /** Two different names get disjoint subtrees from one `{user}` grant. */
  lemma {:induction false} ExpansionsAreDisjoint(stored: string, m: string, n: string, path: string)
    requires Canonical(stored) && HasUser(stored) && m != n
    requires GrantUser(m).Some? && GrantUser(n).Some? && Canonical(path)
    ensures !(Covers(ReplaceUser(stored, m), path) && Covers(ReplaceUser(stored, n), path))
  {
    var cs := Names(stored);
    var ms, ns, ps := ReplaceEach(cs, m), ReplaceEach(cs, n), Names(path);
    ExpansionIsCanonical(stored, m);
    ExpansionIsCanonical(stored, n);
    CoversIsComponentPrefix(ms, ps);
    CoversIsComponentPrefix(ns, ps);
    if ms <= ps && ns <= ps {
      assert ms == ps[..|cs|] == ns;
      ReplaceFlat(cs, m);
      NoMarkInRoot();
      var i :| 0 <= i < |cs| && HasUser(cs[i]);
      assert ms[i] == ns[i];
      ExpansionDeterminesName(cs[i], m, n);
    }
  }

  // ----- what a restricted user can reach ----------------------------------------------------

  /** A grant opens a path to a user: its components, each filled in, are the path's first
      ones. A marked grant opens nothing to a name that cannot be filled in. */
  ghost predicate Opens(g: string, unixUser: string, path: string) {
    if Fillable(unixUser) then ReplaceEach(Names(g), unixUser) <= Names(path)
    else !HasUser(g) && Names(g) <= Names(path)
  }

  lemma GivenOpens(g: string, unixUser: string, p: string, path: string)
    requires Canonical(g) && Canonical(path) && Gives(g, unixUser, p)
    ensures Covers(p, path) <==> Opens(g, unixUser, path)
  {
    GivenIsCanonical(g, unixUser, p);
    CoversIsComponentPrefix(Names(p), Names(path));
  }

  lemma OpeningGives(g: string, unixUser: string, path: string) returns (p: string)
    requires Canonical(g) && Opens(g, unixUser, path)
    ensures Gives(g, unixUser, p) && p != ""
  {
    p := if Fillable(unixUser) then ReplaceUser(g, unixUser) else g;
    GivenIsCanonical(g, unixUser, p);
    RenderStartsWithSlash(Names(p));
  }

  /** From stored grants to the answer: a restricted user may see a path exactly when it is
      canonical and one of the grants opens it. */
  lemma AccessIsGranted(grants: seq<string>, unixUser: string, prefixes: seq<string>, path: string)
    requires ResolvesTo(grants, unixUser, prefixes) && forall g | g in grants :: Canonical(g)
    ensures Allows(Access(Restricted, prefixes), path) <==>
            Canonical(path) && exists g :: g in grants && Opens(g, unixUser, path)
  {
    ResolvedAreCanonical(grants, unixUser, prefixes);
    AllowsIsCoverage(Access(Restricted, prefixes), path);
    if Canonical(path) {
      if p :| p in prefixes && Covers(p, path) {
        var g :| g in grants && Gives(g, unixUser, p);
        GivenOpens(g, unixUser, p, path);
      }
      if g :| g in grants && Opens(g, unixUser, path) {
        var p := OpeningGives(g, unixUser, path);
        GivenOpens(g, unixUser, p, path);
      }
    }
  }

  /** One marked grant never opens the same path to two users. */
  lemma MarkedGrantSeparates(g: string, m: string, n: string, path: string)
    requires Canonical(g) && HasUser(g) && Canonical(path) && m != n
    ensures !(Opens(g, m, path) && Opens(g, n, path))
  {
    if Opens(g, m, path) && Opens(g, n, path) {
      var p := OpeningGives(g, m, path);
      var q := OpeningGives(g, n, path);
      GivenOpens(g, m, p, path);
      GivenOpens(g, n, q, path);
      AcceptedNames(m);
      AcceptedNames(n);
      ExpansionsAreDisjoint(g, m, n, path);
    }
  }

  /** Under a single marked grant no path is shared by two users. */
  lemma NobodySharesAPath(grant: string, m: string, n: string, ms: seq<string>, ns: seq<string>, path: string)
    requires Canonical(grant) && HasUser(grant) && m != n
    requires ResolvesTo([grant], m, ms) && ResolvesTo([grant], n, ns)
    ensures !(Allows(Access(Restricted, ms), path) && Allows(Access(Restricted, ns), path))
  {
    AccessIsGranted([grant], m, ms, path);
    AccessIsGranted([grant], n, ns, path);
    if Canonical(path) { MarkedGrantSeparates(grant, m, n, path); }
  }
}
