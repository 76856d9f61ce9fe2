/** Canonical absolute paths: the one form in which the walker emits a path, the index
    hashes it, the aggregator climbs it and the API compares it. */
module Paths {
  import opened Text

  // ----- canonical paths -------------------------------------------------------------

  predicate IsName(c: string) {
    c != "" && c != "." && c != ".." && '/' !in c
  }

  predicate AreNames(cs: seq<string>) {
    forall c | c in cs :: IsName(c)
  }

  /** Every name with its leading separator. */
  function Flat(cs: seq<string>): string {
    if cs == [] then "" else Flat(cs[..|cs| - 1]) + "/" + cs[|cs| - 1]
  }

  function Render(cs: seq<string>): string {
    if cs == [] then "/" else Flat(cs)
  }

  /** Drops the empty and `.` components. */
  function Kept(parts: seq<string>): (r: seq<string>)
    ensures forall c :: c in r <==> c in parts && c != "" && c != "."
  {
    if parts == [] then []
    else
      var last := parts[|parts| - 1];
      assert parts == parts[..|parts| - 1] + [last];
      var init := Kept(parts[..|parts| - 1]);
      if last == "" || last == "." then init else init + [last]
  }

  /** The components of a path: what lies between its separators. */
  function Names(p: string): seq<string> {
    Kept(Split(p, '/'))
  }

  predicate Canonical(p: string) {
    AreNames(Names(p)) && p == Render(Names(p))
  }

  lemma {:induction false} KeptNames(cs: seq<string>)
    requires AreNames(cs)
    ensures Kept(cs) == cs
  {
    if cs != [] {
      KeptNames(cs[..|cs| - 1]);
      assert cs[|cs| - 1] in cs;
    }
  }

  lemma {:induction false} KeptAppend(a: seq<string>, b: seq<string>)
    ensures Kept(a + b) == Kept(a) + Kept(b)
  {
    if b == [] {
      assert a + b == a;
    } else {
      assert (a + b)[..|a + b| - 1] == a + b[..|b| - 1];
      KeptAppend(a, b[..|b| - 1]);
    }
  }

  lemma {:induction false} FlatAppend(a: seq<string>, b: seq<string>)
    ensures Flat(a + b) == Flat(a) + Flat(b)
  {
    if b == [] {
      assert a + b == a;
    } else {
      assert (a + b)[..|a + b| - 1] == a + b[..|b| - 1];
      FlatAppend(a, b[..|b| - 1]);
      assert Flat(a) + (Flat(b[..|b| - 1]) + "/" + b[|b| - 1]) == Flat(a) + Flat(b[..|b| - 1]) + "/" + b[|b| - 1];
    }
  }

  lemma {:induction false} SplitFlat(cs: seq<string>)
    requires AreNames(cs)
    ensures Split(Flat(cs), '/') == [""] + cs
  {
    if cs != [] {
      var init, last := cs[..|cs| - 1], cs[|cs| - 1];
      assert last in cs;
      SplitFlat(init);
      SplitAppend(Flat(init), last, '/');
      SplitPlain(last, '/');
      assert cs == init + [last];
    }
  }

  /** Rendering and splitting undo each other, so `Render(cs)` is canonical and two
      canonical paths are equal only when their components are. */
  lemma NamesOfRender(cs: seq<string>)
    requires AreNames(cs)
    ensures Names(Render(cs)) == cs && Canonical(Render(cs))
  {
    if cs == [] {
      assert Split("/", '/') == ["", ""];
      assert Kept(["", ""]) == Kept([""]) == [] by { assert ["", ""][..1] == [""]; }
    } else {
      SplitFlat(cs);
      KeptAppend([""], cs);
      KeptNames(cs);
    }
  }

  // ----- scan roots: normalization and coverage --------------------------------------

  datatype RootError = EmptyRoot | RelativeRoot | DotDotRoot

  /** What `normalize_scan_root` promises: reject empty, relative and `..` spellings,
      otherwise re-render the components that are left. */
  function Normalized(raw: string): Result<string, RootError> {
    if raw == "" then Err(EmptyRoot)
    else if raw[0] != '/' then Err(RelativeRoot)
    else if ".." in Split(raw, '/') then Err(DotDotRoot)
    else Ok(Render(Names(raw)))
  }

  lemma RenderSnoc(cs: seq<string>, c: string)
    ensures Render(cs + [c]) == (if cs == [] then "/" else Render(cs) + "/") + c
  {
    assert (cs + [c])[..|cs|] == cs;
    assert Flat(cs + [c]) == Flat(cs) + "/" + c;
    assert "" + "/" + c == "/" + c;
  }

  method NormalizeScanRoot(raw: string) returns (r: Result<string, RootError>)
    ensures r == Normalized(raw)
  {
    if raw == "" { return Err(EmptyRoot); }
    if raw[0] != '/' { return Err(RelativeRoot); }
    var components := Split(raw, '/');
    var out := "/";
    for i := 0 to |components|
      invariant ".." !in components[..i]
      invariant out == Render(Kept(components[..i]))
      invariant |out| > 1 <==> Kept(components[..i]) != []
    {
      var component := components[i];
      ghost var before := components[..i];
      assert components[..i + 1] == before + [component];
      assert (before + [component])[..i] == before;
      if component == "" || component == "." { continue; }
      if component == ".." { return Err(DotDotRoot); }
      RenderSnoc(Kept(before), component);
      if |out| > 1 { out := out + "/"; }
      out := out + component;
    }
    assert components[..|components|] == components;
    r := Ok(out);
  }

  lemma NamesAreNames(raw: string)
    requires ".." !in Split(raw, '/')
    ensures AreNames(Names(raw))
  {
  }

  /** Normalization lands on a canonical path and stops there. */
  lemma NormalizedIsCanonical(raw: string)
    requires Normalized(raw).Ok?
    ensures Canonical(Normalized(raw).value)
    ensures Names(Normalized(raw).value) == Names(raw)
    ensures Normalized(Normalized(raw).value) == Normalized(raw)
  {
    var cs := Names(raw);
    NamesAreNames(raw);
    NamesOfRender(cs);
    CanonicalIsNormal(Render(cs));
  }

  lemma RenderStartsWithSlash(cs: seq<string>)
    ensures Render(cs) != "" && Render(cs)[0] == '/'
  {
    if cs != [] {
      FlatAppend(cs[..1], cs[1..]);
      assert cs == cs[..1] + cs[1..];
      assert Flat(cs[..1]) == "" + "/" + cs[0] by { assert cs[..1][..0] == []; }
    }
  }

  /** The canonical paths are exactly the fixed points of normalization. */
  lemma CanonicalIsNormal(p: string)
    ensures Canonical(p) <==> Normalized(p) == Ok(p)
  {
    if Canonical(p) {
      var cs := Names(p);
      RenderStartsWithSlash(cs);
      if cs == [] {
        assert Split("/", '/') == ["", ""];
      } else {
        SplitFlat(cs);
      }
    }
    if Normalized(p) == Ok(p) {
      NamesAreNames(p);
    }
  }

  /** Every absolute spelling of a canonical path normalizes to it, and nothing else does. */
  lemma NormalizedIffSpells(raw: string, p: string)
    requires Canonical(p)
    ensures Normalized(raw) == Ok(p) <==> "/" <= raw && ".." !in Split(raw, '/') && Names(raw) == Names(p)
  {
    if Normalized(raw).Ok? { NormalizedIsCanonical(raw); }
  }

  lemma SplitAround(a: string, piece: string, b: string)
    requires '/' !in piece
    ensures Split(a + "/" + piece, '/') == Split(a, '/') + [piece]
    ensures Split(a + "/" + piece + "/" + b, '/') == Split(a, '/') + [piece] + Split(b, '/')
  {
    SplitPlain(piece, '/');
    SplitAppend(a, piece, '/');
    SplitAppend(a + "/" + piece, b, '/');
  }

  lemma NamesAround(a: string, piece: string, b: string)
    requires piece == "" || piece == "."
    ensures Names(a + "/" + piece) == Names(a)
    ensures Names(a + "/" + piece + "/" + b) == Names(a + "/" + b)
  {
    var before, after := Split(a, '/'), Split(b, '/');
    SplitAround(a, piece, b);
    SplitAppend(a, b, '/');
    KeptAppend(before, after);
    KeptAppend(before, [piece]);
    KeptAppend(before + [piece], after);
    assert [piece][..0] == [];
  }

  /** An empty or `.` component makes no difference anywhere in an absolute path, so `/home/`
      and `/./home` are `/home`; a `..` is refused wherever it stands. */
  lemma ExtraComponent(a: string, piece: string, b: string)
    requires "/" <= a && '/' !in piece
    ensures piece == "" || piece == "." ==>
              && Normalized(a + "/" + piece) == Normalized(a)
              && Normalized(a + "/" + piece + "/" + b) == Normalized(a + "/" + b)
    ensures piece == ".." ==>
              && Normalized(a + "/" + piece) == Err(DotDotRoot)
              && Normalized(a + "/" + piece + "/" + b) == Err(DotDotRoot)
  {
    SplitAround(a, piece, b);
    SplitAppend(a, b, '/');
    if piece == "" || piece == "." { NamesAround(a, piece, b); }
  }

  function ScanRootPrefix(root: string): string {
    if root == "/" then root else root + "/"
  }

  predicate Covers(root: string, path: string) {
    path == root || ScanRootPrefix(root) <= path
  }

  /** A path that continues another one past a separator extends its components. */
  lemma FlatPrefixExtends(r: seq<string>, p: seq<string>)
    requires AreNames(r) && AreNames(p) && r != []
    requires Flat(r) + "/" <= Flat(p)
    ensures r <= p
  {
    var x := Flat(p)[|Flat(r)| + 1..];
    SplitFlat(p);
    SplitFlat(r);
    assert Flat(p) == Flat(r) + ['/'] + x;
    SplitAppend(Flat(r), x, '/');
    CancelHead([""] + p, r, Split(x, '/'));
  }

  lemma CancelHead(s: seq<string>, a: seq<string>, b: seq<string>)
    requires s == [""] + a + b
    ensures s[1..] == a + b
  {
    assert [""] + a + b == [""] + (a + b);
  }

  lemma PrefixIsFlatPrefix(r: seq<string>, p: seq<string>)
    requires r < p
    ensures Flat(r) + "/" <= Flat(p)
  {
    var rest := p[|r|..];
    assert p == r + rest;
    FlatAppend(r, rest);
    RenderStartsWithSlash(rest);
    assert Flat(rest) == "/" + Flat(rest)[1..];
    assert Flat(p) == Flat(r) + "/" + Flat(rest)[1..];
  }

  /** On canonical paths the byte-prefix test is the component-prefix test. */
  lemma CoversIsComponentPrefix(r: seq<string>, p: seq<string>)
    requires AreNames(r) && AreNames(p)
    ensures Covers(Render(r), Render(p)) <==> r <= p
  {
    NamesOfRender(r);
    NamesOfRender(p);
    RenderStartsWithSlash(p);
    NamesOfRender([]);
    if r <= p {
      if r != [] && r != p { PrefixIsFlatPrefix(r, p); }
      assert Covers(Render(r), Render(p));
    }
    if Covers(Render(r), Render(p)) && Render(r) != Render(p) && r != [] {
      assert Flat(r) + "/" <= Render(p);
      if p == [] {
        RenderStartsWithSlash(r);
        assert false;
      }
      FlatPrefixExtends(r, p);
    }
  }

  // ----- parents ------------------------------------------------------------------------

  function TrimSlashes(p: string): (t: string)
    ensures t <= p && (t != "" ==> t[|t| - 1] != '/')
  {
    if p != "" && p[|p| - 1] == '/' then TrimSlashes(p[..|p| - 1]) else p
  }

  /** Everything before the last separator, if there is one. */
  function BeforeLastSlash(p: string): (r: Option<string>)
    ensures r.None? <==> '/' !in p
    ensures r.Some? ==> |r.value| < |p| && r.value <= p && p[|r.value|] == '/' && '/' !in p[|r.value| + 1..]
  {
    if p == "" then None
    else
      assert p == p[..|p| - 1] + [p[|p| - 1]];
      if p[|p| - 1] == '/' then Some(p[..|p| - 1])
      else
        var r := BeforeLastSlash(p[..|p| - 1]);
        assert r.Some? ==> p[|r.value| + 1..] == p[..|p| - 1][|r.value| + 1..] + [p[|p| - 1]];
        r
  }

  function ParentPath(path: string): (r: Option<string>)
    ensures r.Some? ==> |r.value| < |path|
  {
    if path == "/" then None
    else
      match BeforeLastSlash(TrimSlashes(path))
      case None => None
      case Some(parent) => Some(if parent == "" then "/" else parent)
  }

  /** `rposition` of the separator. */
  method LastSlashIndex(s: string) returns (idx: int)
    ensures idx < 0 <==> BeforeLastSlash(s).None?
    ensures idx >= 0 ==> idx < |s| && BeforeLastSlash(s) == Some(s[..idx])
  {
    idx := |s| - 1;
    assert s[..idx + 1] == s;
    while idx >= 0 && s[idx] != '/'
      invariant -1 <= idx < |s|
      invariant BeforeLastSlash(s[..idx + 1]) == BeforeLastSlash(s)
    {
      assert s[..idx + 1][..idx] == s[..idx];
      idx := idx - 1;
    }
    assert idx >= 0 ==> s[..idx + 1][..idx] == s[..idx];
  }

  method GetParentPath(path: string) returns (r: Option<string>)
    ensures r == ParentPath(path)
  {
    if path == "/" { return None; }
    var end := |path|;
    assert path[..end] == path;
    while end > 0 && path[end - 1] == '/'
      invariant 0 <= end <= |path|
      invariant TrimSlashes(path[..end]) == TrimSlashes(path)
    {
      assert path[..end][..end - 1] == path[..end - 1];
      end := end - 1;
    }
    var trimmed := path[..end];
    var idx := LastSlashIndex(trimmed);
    if idx < 0 { return None; }
    var parent := trimmed[..idx];
    r := Some(if parent == "" then "/" else parent);
  }

  /** The parent of a canonical path drops its last component; only `/` has none. */
  lemma ParentOfCanonical(cs: seq<string>)
    requires AreNames(cs)
    ensures ParentPath(Render(cs)) == if cs == [] then None else Some(Render(cs[..|cs| - 1]))
  {
    if cs != [] {
      var init, last := cs[..|cs| - 1], cs[|cs| - 1];
      assert last in cs;
      var p := Render(cs);
      assert p[|p| - 1] == last[|last| - 1];
      assert TrimSlashes(p) == p;
      LastSlashOf(Flat(init), last);
      if init != [] { RenderStartsWithSlash(init); }
    }
  }

  lemma {:induction false} LastSlashOf(before: string, after: string)
    requires '/' !in after
    ensures BeforeLastSlash(before + "/" + after) == Some(before)
  {
    var p := before + "/" + after;
    if after == "" {
      assert p[..|p| - 1] == before;
    } else {
      var n := |after| - 1;
      assert after[n] in after && p[|p| - 1] == after[n];
      assert p[..|p| - 1] == before + "/" + after[..n];
      LastSlashOf(before, after[..n]);
    }
  }

  /** The parent of any byte string: what stands before its last separator, if something
      follows that; none without a separator; and trailing separators make no difference. */
  lemma ParentOfAnyPath(a: string, c: string)
    requires '/' !in c
    ensures c != "" ==> ParentPath(a + "/" + c) == Some(if a == "" then "/" else a)
    ensures ParentPath(c) == None
    ensures ParentPath(a + "/") == ParentPath(a)
  {
    LastSlashOf(a, c);
    var p := a + "/" + c;
    if c != "" {
      assert p[|p| - 1] == c[|c| - 1];
    }
    var q := a + "/";
    assert q[..|q| - 1] == a && TrimSlashes(q) == TrimSlashes(a);
    assert TrimSlashes("/") == "" by { assert "/"[..0] == ""; }
  }

  /** Repeated `get_parent_path`, from the first parent up. */
  function ParentChain(path: string): seq<string>
    decreases |path|
  {
    match ParentPath(path)
    case None => []
    case Some(parent) => [parent] + ParentChain(parent)
  }

  /** The directories the aggregator's ancestor loop folds into: the ancestors of a
      canonical path, nearest first, without the path itself and without `/`. */
  function Ancestors(cs: seq<string>): seq<string> {
    if |cs| <= 1 then [] else [Render(cs[..|cs| - 1])] + Ancestors(cs[..|cs| - 1])
  }

  /** Climbing parent by parent ends at `/` and visits exactly the aggregator's
      directories before it. */
  lemma {:induction false} ParentChainIsAncestors(cs: seq<string>)
    requires AreNames(cs)
    ensures ParentChain(Render(cs)) == if cs == [] then [] else Ancestors(cs) + ["/"]
  {
    ParentOfCanonical(cs);
    if cs != [] {
      ParentChainIsAncestors(cs[..|cs| - 1]);
    }
  }

  lemma {:induction false} ProperPrefixIsAncestor(cs: seq<string>, k: nat)
    requires 0 < k < |cs|
    ensures Render(cs[..k]) in Ancestors(cs)
  {
    if k < |cs| - 1 {
      assert cs[..|cs| - 1][..k] == cs[..k];
      ProperPrefixIsAncestor(cs[..|cs| - 1], k);
    }
  }

  lemma {:induction false} AncestorIsProperPrefix(d: string, cs: seq<string>) returns (k: nat)
    requires d in Ancestors(cs)
    ensures 0 < k < |cs| && d == Render(cs[..k])
  {
    k := |cs| - 1;
    if d != Render(cs[..k]) {
      k := AncestorIsProperPrefix(d, cs[..k]);
      assert cs[..|cs| - 1][..k] == cs[..k];
    }
  }

  /** The aggregator's directories of a path are the canonical paths other than `/`
      and itself that cover it. */
  lemma AncestorsAreCovers(d: seq<string>, p: seq<string>)
    requires AreNames(d) && AreNames(p)
    ensures Render(d) in Ancestors(p) <==> d != [] && d < p
  {
    if d != [] && d < p {
      assert p[..|d|] == d;
      ProperPrefixIsAncestor(p, |d|);
    }
    if Render(d) in Ancestors(p) {
      var k := AncestorIsProperPrefix(Render(d), p);
      NamesOfRender(d);
      NamesOfRender(p[..k]);
    }
  }

  lemma ChainMembers(r: seq<string>, p: seq<string>)
    requires AreNames(r) && AreNames(p)
    ensures Render(r) in ParentChain(Render(p)) <==> r < p
  {
    ParentChainIsAncestors(p);
    if p != [] {
      var chain := Ancestors(p) + ["/"];
      AncestorsAreCovers(r, p);
      NamesOfRender(r);
      NamesOfRender([]);
      if r == [] { assert chain[|chain| - 1] == "/"; }
    }
  }

  /** A root covers a path exactly when it is the path or lies on its parent chain. */
  lemma CoversIsOnChain(root: string, path: string)
    requires Canonical(root) && Canonical(path)
    ensures Covers(root, path) <==> root == path || root in ParentChain(path)
  {
    var r, p := Names(root), Names(path);
    CoversIsComponentPrefix(r, p);
    ChainMembers(r, p);
    assert r <= p <==> r == p || r < p;
  }

  // ----- path.Clean on absolute paths -----------------------------------------------------

  /** The component stack of Go's `path.Clean` for a rooted path: `..` pops and vanishes
      at the root. */
  function Resolve(parts: seq<string>): seq<string> {
    if parts == [] then []
    else
      var init, last := Resolve(parts[..|parts| - 1]), parts[|parts| - 1];
      if last == "" || last == "." then init
      else if last == ".." then (if init == [] then [] else init[..|init| - 1])
      else init + [last]
  }

  function Clean(p: string): string
    requires p != "" && p[0] == '/'
  {
    Render(Resolve(Split(p, '/')))
  }

  lemma {:induction false} ResolveNames(parts: seq<string>)
    requires forall c | c in parts :: '/' !in c
    ensures AreNames(Resolve(parts))
    ensures ".." !in parts ==> Resolve(parts) == Kept(parts)
  {
    if parts != [] {
      ResolveNames(parts[..|parts| - 1]);
      assert parts[|parts| - 1] in parts;
    }
  }

  /** Cleaning an absolute path gives a canonical one, and leaves a path alone exactly
      when it is canonical already. */
  lemma CleanCharacterizesCanonical(p: string)
    requires p != "" && p[0] == '/'
    ensures Canonical(Clean(p))
    ensures Clean(p) == p <==> Canonical(p)
  {
    ResolveNames(Split(p, '/'));
    NamesOfRender(Resolve(Split(p, '/')));
    if Canonical(p) {
      CanonicalIsNormal(p);
    }
  }
}
