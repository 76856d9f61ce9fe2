/** The validated set of scan roots of one indexer run. */
module ScanRoots {
  import opened Text
  import opened Paths

  datatype IndexerConfig = IndexerConfig(rootPath: Option<string>, rootPaths: seq<string>) {
    /** Both spellings of the setting, in the order they are read. */
    function Configured(): seq<string> {
      (if rootPath.Some? then [rootPath.value] else []) + rootPaths
    }
  }

  datatype RootsError =
    | BadRoot(raw: string, error: RootError)
    | NoRoots
    | Overlap(a: string, b: string)

  ghost predicate Disjoint(roots: seq<string>) {
    forall a, b | a in roots && b in roots && a != b :: !Covers(a, b)
  }

  /** The roots a configuration names, once each is normalized. */
  ghost predicate AreNormalizedFrom(roots: seq<string>, raws: seq<string>) {
    && (forall raw | raw in raws :: Normalized(raw).Ok? && Normalized(raw).value in roots)
    && (forall r | r in roots :: exists raw :: raw in raws && Normalized(raw) == Ok(r))
  }

  /** A root sorts before everything it covers, which is why comparing each root with
      the later ones alone misses no overlap. */
  lemma CoveringRootSortsFirst(a: string, b: string)
    requires Covers(a, b)
    requires b != "" && b[0] == '/'
    ensures Le(a, b)
  {
    assert a <= b;
    PrefixLe(a, b);
  }

  lemma EarlierCoversLater(roots: seq<string>, a: string, b: string) returns (i: nat, j: nat)
    requires StrictlySorted(roots) && forall r | r in roots :: Canonical(r)
    requires a in roots && b in roots && a != b && Covers(a, b)
    ensures i < j < |roots| && roots[i] == a && roots[j] == b
  {
    i :| 0 <= i < |roots| && roots[i] == a;
    j :| 0 <= j < |roots| && roots[j] == b;
    RenderStartsWithSlash(Names(b));
    CoveringRootSortsFirst(a, b);
    if j < i { LeAntisymmetric(a, b); }
  }

  /** What the configuration has to satisfy: a root at all, every root normalizes, and
      roots that differ once normalized do not overlap in either direction. */
  ghost predicate Acceptable(raws: seq<string>) {
    && raws != []
    && (forall raw | raw in raws :: Normalized(raw).Ok?)
    && (forall x, y | x in raws && y in raws ::
          Normalized(x) == Normalized(y) || !Covers(Normalized(x).value, Normalized(y).value))
  }

  /** Root `k` is the first that does not normalize. */
  ghost predicate FirstBad(raws: seq<string>, k: int, raw: string, error: RootError) {
    && 0 <= k < |raws| && raws[k] == raw && Normalized(raw) == Err(error)
    && forall i | 0 <= i < k :: Normalized(raws[i]).Ok?
  }

  /** Why a configuration is refused; a bad root is the first one. */
  ghost predicate Justifies(raws: seq<string>, e: RootsError) {
    match e
    case BadRoot(raw, error) => exists k :: FirstBad(raws, k, raw, error)
    case NoRoots => raws == []
    case Overlap(a, b) =>
      && a != b && Covers(a, b)
      && exists x, y :: x in raws && y in raws && Normalized(x) == Ok(a) && Normalized(y) == Ok(b)
  }

  /** Root by root, in the order they are configured; the first bad one ends it. */
  method NormalizeAll(raws: seq<string>) returns (r: Result<seq<string>, RootsError>)
    ensures r.Ok? <==> forall i | 0 <= i < |raws| :: Normalized(raws[i]).Ok?
    ensures r.Ok? ==> |r.value| == |raws| && forall i | 0 <= i < |raws| :: Normalized(raws[i]) == Ok(r.value[i])
    ensures r.Err? ==> r.error.BadRoot? && Justifies(raws, r.error)
  {
    var roots := [];
    for i := 0 to |raws|
      invariant |roots| == i && forall k | 0 <= k < i :: Normalized(raws[k]) == Ok(roots[k])
    {
      var root := NormalizeScanRoot(raws[i]);
      if root.Err? {
        assert FirstBad(raws, i, raws[i], root.error);
        return Err(BadRoot(raws[i], root.error));
      }
      roots := roots + [root.value];
    }
    r := Ok(roots);
  }

  lemma InOrderIsNormalizedFrom(roots: seq<string>, raws: seq<string>)
    requires |roots| == |raws| && forall i | 0 <= i < |raws| :: Normalized(raws[i]) == Ok(roots[i])
    ensures AreNormalizedFrom(roots, raws)
  {
    forall r | r in roots
      ensures exists raw :: raw in raws && Normalized(raw) == Ok(r)
    {
      var i :| 0 <= i < |roots| && roots[i] == r;
      assert raws[i] in raws;
    }
  }

  /** The nested scan: each root against the later ones only. */
  method FindOverlap(roots: seq<string>) returns (r: Option<(string, string)>)
    requires StrictlySorted(roots) && forall root | root in roots :: Canonical(root)
    ensures r.None? <==> Disjoint(roots)
    ensures r.Some? ==> r.value.0 in roots && r.value.1 in roots
    ensures r.Some? ==> r.value.0 != r.value.1 && Covers(r.value.0, r.value.1)
  {
    for i := 0 to |roots|
      invariant forall k, l | 0 <= k < i && k < l < |roots| :: !Covers(roots[k], roots[l])
    {
      var a := roots[i];
      for j := i + 1 to |roots|
        invariant forall l | i < l < j :: !Covers(a, roots[l])
      {
        if Covers(a, roots[j]) {
          return Some((a, roots[j]));
        }
      }
    }
    forall a, b | a in roots && b in roots && a != b ensures !Covers(a, b) {
      if Covers(a, b) {
        var i, j := EarlierCoversLater(roots, a, b);
      }
    }
    r := None;
  }

  method Roots(config: IndexerConfig) returns (r: Result<seq<string>, RootsError>)
    ensures r.Ok? <==> Acceptable(config.Configured())
    ensures r.Ok? ==> r.value != [] && StrictlySorted(r.value) && AreNormalizedFrom(r.value, config.Configured())
    ensures r.Ok? ==> Disjoint(r.value) && forall root | root in r.value :: Canonical(root)
    ensures r.Err? ==> Justifies(config.Configured(), r.error)
  {
    var raws := config.Configured();
    var normalized := NormalizeAll(raws);
    if normalized.Err? { return normalized; }
    var roots := normalized.value;
    InOrderIsNormalizedFrom(roots, raws);
    if roots == [] { return Err(NoRoots); }
    SortSorted(roots);
    SortMembers(roots);
    CompactStrictlySorted(Sort(roots));
    ghost var listed := roots;
    roots := Compact(Sort(roots));
    assert roots != [];
    SameMembersNormalized(listed, roots, raws);
    var overlap := FindOverlap(roots);
    if overlap.Some? {
      return Err(Overlap(overlap.value.0, overlap.value.1));
    }
    r := Ok(roots);
  }

  lemma SameMembersNormalized(listed: seq<string>, roots: seq<string>, raws: seq<string>)
    requires AreNormalizedFrom(listed, raws) && raws != []
    requires forall s :: s in roots <==> s in listed
    ensures AreNormalizedFrom(roots, raws)
    ensures forall root | root in roots :: Canonical(root)
    ensures Disjoint(roots) <==> Acceptable(raws)
  {
    forall root | root in roots ensures Canonical(root) {
      var raw :| raw in raws && Normalized(raw) == Ok(root);
      NormalizedIsCanonical(raw);
    }
    if Acceptable(raws) {
      forall a, b | a in roots && b in roots && a != b ensures !Covers(a, b) {
        var x :| x in raws && Normalized(x) == Ok(a);
        var y :| y in raws && Normalized(y) == Ok(b);
      }
    }
  }

  /** Disjoint canonical roots share no path, so "what this run is responsible for" is
      never ambiguous. */
  lemma CoveredByAtMostOneRoot(roots: seq<string>, a: string, b: string, path: string)
    requires Disjoint(roots) && a in roots && b in roots
    requires Canonical(a) && Canonical(b) && Canonical(path)
    requires Covers(a, path) && Covers(b, path)
    ensures a == b
  {
    var cs, ds, ps := Names(a), Names(b), Names(path);
    CoversIsComponentPrefix(cs, ps);
    CoversIsComponentPrefix(ds, ps);
    CoversIsComponentPrefix(cs, ds);
    CoversIsComponentPrefix(ds, cs);
    assert cs == ps[..|cs|] && ds == ps[..|ds|];
    assert if |cs| <= |ds| then cs <= ds else ds <= cs;
  }
}
