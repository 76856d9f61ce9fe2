/** `${VAR}` expansion, written twice: a scanning loop in Rust and a leftmost regular
    expression replacement in Go. */
module EnvRefs {
  import opened Text

  type Env = map<string, string>

  predicate NameStart(c: char) {
    c == '_' || 'a' <= c <= 'z' || 'A' <= c <= 'Z'
  }

  predicate NameChar(c: char) {
    NameStart(c) || '0' <= c <= '9'
  }

  predicate ValidName(name: string) {
    name != "" && NameStart(name[0]) && forall c | c in name :: NameChar(c)
  }

  // ----- the regular expression `\$\{([A-Za-z_][A-Za-z0-9_]*)\}` ---------------------------------

  function NameLength(s: string): (n: nat)
    ensures n <= |s| && (forall c | c in s[..n] :: NameChar(c)) && (n < |s| ==> !NameChar(s[n]))
  {
    if s != "" && NameChar(s[0]) then
      var n := NameLength(s[1..]);
      assert s[..n + 1] == [s[0]] + s[1..][..n];
      n + 1
    else 0
  }

  /** The name of the reference that `s` starts with, if it starts with one. */
  function RefAt(s: string): Option<string> {
    if "${" <= s then
      var n := NameLength(s[2..]);
      if n > 0 && NameStart(s[2]) && 2 + n < |s| && s[2 + n] == '}' then Some(s[2..2 + n]) else None
    else None
  }

  lemma {:induction false} NameLengthOf(name: string, rest: string)
    requires (forall c | c in name :: NameChar(c)) && (rest == "" || !NameChar(rest[0]))
    ensures NameLength(name + rest) == |name|
  {
    if name == "" {
      assert name + rest == rest;
    } else {
      assert (name + rest)[1..] == name[1..] + rest && name[0] in name;
      NameLengthOf(name[1..], rest);
    }
  }

  /** Matching at a position finds a reference exactly when there is one to find. */
  lemma RefAtIsTheMatch(s: string, name: string)
    ensures RefAt(s) == Some(name) <==> ValidName(name) && "${" + name + "}" <= s
  {
    if ValidName(name) && "${" + name + "}" <= s {
      var t := "${" + name + "}";
      var rest := s[|t|..];
      assert s == t + rest;
      assert s[2..] == name + ("}" + rest);
      NameLengthOf(name, "}" + rest);
      assert s[2..2 + |name|] == name && s[2] == name[0] && s[2 + |name|] == '}';
    }
    if RefAt(s) == Some(name) {
      var n := NameLength(s[2..]);
      assert s[2..2 + n] == s[2..][..n] == name && name[0] == s[2];
      assert s[..3 + n] == "${" + name + "}";
    }
  }

  // ----- Go: ReplaceAllStringFunc ----------------------------------------------------------------

  function AfterRef(s: string, name: string): string
    requires RefAt(s) == Some(name)
  {
    s[|name| + 3..]
  }

  /** A replacement pass: the text, the first unset variable, how many references. */
  datatype Pass = Pass(text: string, missing: Option<string>, refs: nat)

  /** What a piece of the string contributes before the rest of it. */
  function Then(text: string, missing: Option<string>, refs: nat, more: Pass): Pass {
    Pass(text + more.text, if missing.Some? then missing else more.missing, refs + more.refs)
  }

  /** Leftmost, non-overlapping replacement; an unset variable becomes empty and is noted. */
  function GoPass(s: string, env: Env): Pass {
    match RefAt(s)
    case Some(name) =>
      var rest := GoPass(AfterRef(s, name), env);
      if name in env then Then(env[name], None, 1, rest) else Then("", Some(name), 1, rest)
    case None => if s == "" then Pass("", None, 0) else Then([s[0]], None, 0, GoPass(s[1..], env))
  }

  function GoExpand(s: string, env: Env): Result<string, string> {
    var p := GoPass(s, env);
    if p.missing.Some? then Err(p.missing.value) else Ok(p.text)
  }

  /** `^\$\{…\}$`: the whole string is one reference. */
  predicate GoBareRef(s: string) {
    RefAt(s).Some? && |s| == |RefAt(s).value| + 3
  }

  function RefCount(s: string): nat {
    GoPass(s, map[]).refs
  }

  lemma {:induction false} RefCountIgnoresEnv(s: string, env: Env)
    ensures GoPass(s, env).refs == RefCount(s)
  {
    match RefAt(s)
    case Some(name) => RefCountIgnoresEnv(AfterRef(s, name), env);
    case None => if s != "" { RefCountIgnoresEnv(s[1..], env); }
  }

  // ----- Rust: the scanner -------------------------------------------------------------------------

  predicate EndsInOpener(s: string) {
    |s| >= 2 && s[|s| - 2..] == "${"
  }

  /** The scanner's flag: one reference at the start, no other, and nothing left over after
      the last opener. */
  predicate RustWholeRef(s: string) {
    && RefAt(s).Some?
    && var tail := AfterRef(s, RefAt(s).value);
    && RefCount(tail) == 0
    && (tail == "" || EndsInOpener(tail))
  }

  ghost predicate FirstAt(s: string, w: string, at: nat) {
    at + |w| <= |s| && w <= s[at..] && forall k | 0 <= k < at :: !(w <= s[k..])
  }

  ghost predicate Absent(s: string, w: string) {
    forall k | 0 <= k <= |s| :: !(w <= s[k..])
  }

  /** The first position at which `w` starts. */
  method Find(s: string, w: string) returns (r: Option<nat>)
    requires w != ""
    ensures r.Some? ==> FirstAt(s, w, r.value)
    ensures r.None? ==> Absent(s, w)
  {
    for i := 0 to |s|
      invariant forall k | 0 <= k < i :: !(w <= s[k..])
    {
      if w <= s[i..] { return Some(i); }
    }
    return None;
  }

  lemma ThenTwice(a: string, m: nat, b: string, missing: Option<string>, n: nat, more: Pass)
    ensures Then(a, None, m, Then(b, missing, n, more)) == Then(a + b, missing, m + n, more)
  {
    assert a + (b + more.text) == a + b + more.text;
  }

  /** Text before the first opener is copied. */
  lemma {:induction false} SkipPlain(s: string, start: nat, env: Env)
    requires start <= |s| && forall k | 0 <= k < start :: !("${" <= s[k..])
    ensures GoPass(s, env) == Then(s[..start], None, 0, GoPass(s[start..], env))
    decreases start
  {
    if start == 0 {
      assert s[0..] == s;
    } else {
      var n := start - 1;
      SkipPlain(s, n, env);
      assert s[n..][1..] == s[start..] && s[..start] == s[..n] + [s[n]];
      ThenTwice(s[..n], 0, [s[n]], None, 0, GoPass(s[start..], env));
    }
  }

  /** An opener that starts no reference is copied too, both characters of it. */
  lemma SkipOpener(s: string, env: Env)
    requires "${" <= s && RefAt(s).None?
    ensures GoPass(s, env) == Then("${", None, 0, GoPass(s[2..], env))
  {
    var t := s[1..];
    assert s[0] == '$' && t[0] == '{' && t[1..] == s[2..] && !("${" <= t);
    assert GoPass(t, env) == Then("{", None, 0, GoPass(s[2..], env));
    ThenTwice("$", 0, "{", None, 0, GoPass(s[2..], env));
  }

  lemma NoOpenerNoRef(s: string, env: Env)
    requires Absent(s, "${")
    ensures GoPass(s, env) == Pass(s, None, 0)
  {
    SkipPlain(s, |s|, env);
    assert s[|s|..] == "";
  }

  /** The name length the scanner finds: up to the first `}`, if what precedes it is a name. */
  method NameBefore(after: string) returns (n: Option<nat>)
    ensures match RefAt("${" + after)
            case Some(name) => n == Some(|name|) && |name| < |after| && after[..|name|] == name && after[|name|] == '}'
            case None => n == None
  {
    var close := Find(after, "}");
    ghost var s := "${" + after;
    if close.None? {
      if RefAt(s).Some? { ClosedByBrace(after, RefAt(s).value); }
      return None;
    }
    var name := after[..close.value];
    if name != "" && NameStart(name[0]) && forall c | c in name :: NameChar(c) {
      assert after[close.value..][0] == '}';
      assert s[..close.value + 3] == "${" + name + "}";
      RefAtIsTheMatch(s, name);
      return Some(close.value);
    }
    if RefAt(s).Some? { ClosedByBrace(after, RefAt(s).value); BraceIsFirst(after, RefAt(s).value, close.value); }
    return None;
  }

  lemma ClosedByBrace(after: string, name: string)
    requires RefAt("${" + after) == Some(name)
    ensures ValidName(name) && name + "}" <= after && "}" <= after[|name|..]
  {
    var s := "${" + after;
    RefAtIsTheMatch(s, name);
    assert s[2..] == after && s[..|name| + 3] == "${" + name + "}";
    assert s[2..|name| + 3] == name + "}" == after[..|name| + 1];
  }

  lemma BraceIsFirst(after: string, name: string, k: nat)
    requires ValidName(name) && name + "}" <= after && k < |after| && "}" <= after[k..]
    requires forall i | 0 <= i < k :: !("}" <= after[i..])
    ensures after[..k] == name
  {
    assert after[..|name| + 1] == name + "}";
    assert forall i | 0 <= i < |name| :: after[i] == name[i] && name[i] in name;
    assert after[k] == '}' && "}" <= after[|name|..];
  }

  lemma ReadOpener(rest: string, start: nat, env: Env)
    requires FirstAt(rest, "${", start) && RefAt(rest[start..]).None?
    ensures GoPass(rest, env) == Then(rest[..start + 2], None, 0, GoPass(rest[start + 2..], env))
  {
    SkipPlain(rest, start, env);
    SkipOpener(rest[start..], env);
    assert rest[start..][2..] == rest[start + 2..] && rest[..start] + "${" == rest[..start + 2];
    ThenTwice(rest[..start], 0, "${", None, 0, GoPass(rest[start + 2..], env));
  }

  lemma ReadRef(rest: string, start: nat, name: string, env: Env)
    requires FirstAt(rest, "${", start) && RefAt(rest[start..]) == Some(name)
    ensures var more := GoPass(rest[start + |name| + 3..], env);
            GoPass(rest, env) ==
              if name in env then Then(rest[..start] + env[name], None, 1, more)
              else Then(rest[..start] + "", Some(name), 1, more)
  {
    SkipPlain(rest, start, env);
    assert rest[start..][|name| + 3..] == rest[start + |name| + 3..];
    var more := GoPass(rest[start + |name| + 3..], env);
    if name in env {
      ThenTwice(rest[..start], 0, env[name], None, 1, more);
    } else {
      ThenTwice(rest[..start], 0, "", Some(name), 1, more);
    }
  }

  /** What the scanner knows about the start of the string: `done` is read, `rest` is not. */
  ghost predicate FlagState(s: string, done: string, rest: string, out: string, refs: nat, startsWithRef: bool) {
    && s == done + rest
    && (refs == 0 ==> out == done && !startsWithRef && (RefAt(s).Some? ==> done == ""))
    && (refs > 0 ==> (startsWithRef <==> RefAt(s).Some?) && (RefAt(s).None? ==> out != ""))
    && (refs == 1 && RefAt(s).Some? ==> PastFirstRef(s, done))
  }

  lemma FlagAtStart(s: string, done: string, rest: string, start: nat)
    requires s == done + rest && done == "" && FirstAt(rest, "${", start)
    ensures rest == s && (RefAt(s).Some? ==> start == 0) && (start == 0 ==> rest[start..] == s)
  {
    assert rest == s && s[0..] == s;
  }

  lemma FlagPastOpener(s: string, done: string, rest: string, out: string, refs: nat, startsWithRef: bool, start: nat)
    requires FlagState(s, done, rest, out, refs, startsWithRef)
    requires FirstAt(rest, "${", start) && RefAt(rest[start..]).None?
    ensures FlagState(s, done + rest[..start + 2], rest[start + 2..], out + rest[..start + 2], refs, startsWithRef)
  {
    var read := rest[..start + 2];
    assert rest == read + rest[start + 2..];
    if refs == 0 && RefAt(s).Some? {
      FlagAtStart(s, done, rest, start);
    }
    if refs == 1 && RefAt(s).Some? {
      var n := |RefAt(s).value| + 3;
      assert (done + read)[n..] == done[n..] + read && read[start..] == "${";
    }
  }

  lemma FlagPastRef(
    s: string, done: string, rest: string, out: string, refs: nat, startsWithRef: bool,
    start: nat, name: string, value: string)
    requires FlagState(s, done, rest, out, refs, startsWithRef)
    requires FirstAt(rest, "${", start) && RefAt(rest[start..]) == Some(name)
    ensures var read := start + |name| + 3;
            read <= |rest| &&
            FlagState(s, done + rest[..read], rest[read..], out + (rest[..start] + value), refs + 1,
                      startsWithRef || (out == "" && start == 0))
  {
    var read := start + |name| + 3;
    assert rest == rest[..read] + rest[read..];
    if refs == 0 {
      if done == "" { FlagAtStart(s, done, rest, start); }
    }
  }

  /** The scanner's loop invariant. */
  ghost predicate Scanning(
    s: string, env: Env, done: string, rest: string, out: string, refs: nat, startsWithRef: bool)
  {
    && GoPass(s, env) == Then(out, None, refs, GoPass(rest, env))
    && FlagState(s, done, rest, out, refs, startsWithRef)
  }

  lemma ScanOpener(
    s: string, env: Env, done: string, rest: string, out: string, refs: nat, startsWithRef: bool, start: nat)
    requires Scanning(s, env, done, rest, out, refs, startsWithRef)
    requires FirstAt(rest, "${", start) && RefAt(rest[start..]).None?
    ensures Scanning(s, env, done + rest[..start + 2], rest[start + 2..], out + rest[..start + 2], refs, startsWithRef)
  {
    ReadOpener(rest, start, env);
    ThenTwice(out, refs, rest[..start + 2], None, 0, GoPass(rest[start + 2..], env));
    FlagPastOpener(s, done, rest, out, refs, startsWithRef, start);
  }

  lemma ScanRef(
    s: string, env: Env, done: string, rest: string, out: string, refs: nat, startsWithRef: bool,
    start: nat, name: string)
    requires Scanning(s, env, done, rest, out, refs, startsWithRef)
    requires FirstAt(rest, "${", start) && RefAt(rest[start..]) == Some(name)
    ensures start + |name| + 3 <= |rest|
    ensures name !in env ==> GoExpand(s, env) == Err(name)
    ensures name in env ==>
              Scanning(s, env, done + rest[..start + |name| + 3], rest[start + |name| + 3..],
                       out + (rest[..start] + env[name]), refs + 1, startsWithRef || (out == "" && start == 0))
  {
    ReadRef(rest, start, name, env);
    if name in env {
      ThenTwice(out, refs, rest[..start] + env[name], None, 1, GoPass(rest[start + |name| + 3..], env));
      FlagPastRef(s, done, rest, out, refs, startsWithRef, start, name, env[name]);
    }
  }

  /** The reference that opens at position `at`, if one does. */
  method NameAt(rest: string, at: nat) returns (name: Option<string>)
    requires FirstAt(rest, "${", at)
    ensures name == RefAt(rest[at..])
    ensures name.Some? ==> at + |name.value| + 3 <= |rest|
  {
    var after := rest[at + 2..];
    assert rest[at..][..2] == "${";
    assert rest[at..] == "${" + after;
    var n := NameBefore(after);
    name := if n.Some? then Some(after[..n.value]) else None;
  }

  method ExpandEnvStr(s: string, env: Env) returns (r: Result<(string, bool), string>)
    ensures match GoExpand(s, env)
            case Err(name) => r == Err(name)
            case Ok(text) => r == Ok((text, RustWholeRef(s)))
  {
    var out, rest, refs, startsWithRef := "", s, 0, false;
    ghost var done := "";
    ThenNothing(GoPass(s, env));
    assert done + rest == s;
    while true
      invariant Scanning(s, env, done, rest, out, refs, startsWithRef)
      decreases |rest|
    {
      var start := Find(rest, "${");
      if start.None? { break; }
      var at := start.value;
      var reference := NameAt(rest, at);
      if reference.None? {
        ScanOpener(s, env, done, rest, out, refs, startsWithRef, at);
        done, out, rest := done + rest[..at + 2], out + rest[..at + 2], rest[at + 2..];
        continue;
      }
      var name := reference.value;
      ScanRef(s, env, done, rest, out, refs, startsWithRef, at, name);
      if name !in env { return Err(name); }
      startsWithRef := startsWithRef || (out == "" && at == 0);
      out := out + (rest[..at] + env[name]);
      refs := refs + 1;
      done, rest := done + rest[..at + |name| + 3], rest[at + |name| + 3..];
    }
    var wholeRef := refs == 1 && startsWithRef && rest == "";
    NoOpenerNoRef(rest, env);
    WholeRefFlag(s, env, done, rest, out, refs, startsWithRef);
    out := out + rest;
    r := Ok((out, wholeRef));
  }

  lemma ThenNothing(p: Pass)
    ensures Then("", None, 0, p) == p
  {
    assert "" + p.text == p.text;
  }

  lemma {:induction false} WholeRefFlag(
    s: string, env: Env, done: string, rest: string, out: string, refs: nat, startsWithRef: bool)
    requires GoPass(s, env) == Then(out, None, refs, GoPass(rest, env))
    requires FlagState(s, done, rest, out, refs, startsWithRef)
    requires Absent(rest, "${")
    ensures RustWholeRef(s) <==> refs == 1 && startsWithRef && rest == ""
  {
    NoOpenerNoRef(rest, env);
    RefCountIgnoresEnv(s, env);
    if refs == 1 && RefAt(s).Some? {
      TailLeftOver(s, done, rest);
    }
  }

  lemma TailLeftOver(s: string, done: string, rest: string)
    requires s == done + rest && RefAt(s).Some? && PastFirstRef(s, done)
    requires Absent(rest, "${")
    ensures var tail := AfterRef(s, RefAt(s).value);
            rest == "" <==> tail == "" || EndsInOpener(tail)
  {
    var n := |RefAt(s).value| + 3;
    var tail, read := AfterRef(s, RefAt(s).value), done[n..];
    assert tail == read + rest;
    if |rest| >= 2 {
      assert !("${" <= rest[|rest| - 2..]);
      SuffixOpener(read, rest);
    } else if |rest| == 1 && read != "" {
      assert read[|read| - 1] == '{' && tail[|tail| - 2] == '{';
    }
  }

  lemma SuffixOpener(read: string, rest: string)
    requires |rest| >= 2
    ensures EndsInOpener(read + rest) <==> "${" <= rest[|rest| - 2..]
  {
    assert (read + rest)[|read + rest| - 2..] == rest[|rest| - 2..];
  }

  /** What is scanned so far is the first reference, and then nothing or something that
      ends in an opener. */
  ghost predicate PastFirstRef(s: string, done: string)
    requires RefAt(s).Some?
  {
    var n := |RefAt(s).value| + 3;
    n <= |done| && (|done| == n || EndsInOpener(done[n..]))
  }

  // ----- the two flags -------------------------------------------------------------------------------

  lemma RefThenTail(s: string, name: string)
    requires RefAt(s) == Some(name)
    ensures s == ("${" + name + "}") + AfterRef(s, name)
    ensures RefCount(s) == 1 + RefCount(AfterRef(s, name))
  {
    RefAtIsTheMatch(s, name);
    assert s[..|name| + 3] == "${" + name + "}";
  }

  lemma OpenerIsInTail(head: string, tail: string)
    requires head != "" && head[|head| - 1] == '}'
    ensures EndsInOpener(head + tail) <==> EndsInOpener(tail)
  {
    var s := head + tail;
    if |tail| >= 2 {
      SuffixOpener(head, tail);
    } else {
      assert s[|head| - 1] == '}';
    }
  }

  /** The scanner's flag and Go's anchored match differ exactly on a reference followed by
      more text without a reference that ends in an opener. */
  lemma FlagsAgreeExactly(s: string)
    ensures RustWholeRef(s) == GoBareRef(s) <==> !(RefAt(s).Some? && RefCount(s) == 1 && EndsInOpener(s))
    ensures GoBareRef(s) ==> RustWholeRef(s)
  {
    if RefAt(s).Some? {
      var name := RefAt(s).value;
      RefThenTail(s, name);
      OpenerIsInTail("${" + name + "}", AfterRef(s, name));
    }
  }

  /** One such string: the scanner calls `${A}${` a bare reference, Go does not. */
  lemma FlagsDisagreeSomewhere()
    ensures RustWholeRef("${A}${") && !GoBareRef("${A}${")
  {
    var s := "${A}${";
    assert s[..4] == "${" + "A" + "}";
    RefAtIsTheMatch(s, "A");
    assert AfterRef(s, "A") == "${";
    assert "${"[2..] == "" && NameLength("") == 0;
    SkipOpener("${", map[]);
    assert GoPass("", map[]) == Pass("", None, 0);
  }
}
