/** What the aggregates mean, and why row order does not matter: the fold is over a
    commutative monoid once sizes are non-negative, so the streaming run agrees with the
    sorted children-before-parents computation it replaced. */
module BottomUp {
  import opened Text
  import opened Paths
  import opened Aggregation

  predicate NonNegative(rows: seq<Row>) {
    forall r | r in rows :: r.size >= 0
  }

  predicate Good(n: Option<DirNode>) {
    n.Some? ==> n.value.size >= 0
  }

  // ----- the monoid ---------------------------------------------------------------------

  lemma {:induction false} WrapAbsorbs(a: int, b: int)
    ensures Wrap(Wrap(a) + b) == Wrap(a + b)
  {
  }

  lemma {:induction false} MergeCommutes(a: Option<DirNode>, b: Option<DirNode>)
    ensures Merge(a, b) == Merge(b, a)
  {
  }

  lemma {:induction false} SizesAssociate(a: I64, b: I64, c: I64)
    requires a >= 0 && b >= 0 && c >= 0
    ensures SaturatingAdd(SaturatingAdd(a, b), c) == SaturatingAdd(a, SaturatingAdd(b, c))
  {
  }

  lemma {:induction false} CountsAssociate(a: int, b: int, c: int)
    ensures Wrap(Wrap(a + b) + c) == Wrap(a + Wrap(b + c))
  {
    WrapAbsorbs(a + b, c);
    WrapAbsorbs(b + c, a);
  }

  lemma {:induction false} MergeNodesAssociate(a: DirNode, b: DirNode, c: DirNode)
    requires a.size >= 0 && b.size >= 0 && c.size >= 0
    ensures MergeNodes(MergeNodes(a, b), c) == MergeNodes(a, MergeNodes(b, c))
  {
    SizesAssociate(a.size, b.size, c.size);
    CountsAssociate(a.count, b.count, c.count);
  }

  lemma {:induction false} MergeAssociates(a: Option<DirNode>, b: Option<DirNode>, c: Option<DirNode>)
    requires Good(a) && Good(b) && Good(c)
    ensures Good(Merge(a, b)) && Merge(Merge(a, b), c) == Merge(a, Merge(b, c))
  {
    if a.Some? && b.Some? && c.Some? {
      MergeNodesAssociate(a.value, b.value, c.value);
    }
  }

  lemma {:induction false} TotalGood(rows: seq<Row>, keep: set<Row>)
    requires NonNegative(rows)
    ensures Good(Total(rows, keep))
  {
    if rows != [] {
      TotalGood(rows[..|rows| - 1], keep);
    }
  }

  lemma {:induction false} TotalAppend(a: seq<Row>, b: seq<Row>, keep: set<Row>)
    requires NonNegative(a) && NonNegative(b)
    ensures Total(a + b, keep) == Merge(Total(a, keep), Total(b, keep))
  {
    if b == [] {
      assert a + b == a;
    } else {
      var init, last := b[..|b| - 1], b[|b| - 1];
      assert (a + b)[..|a + b| - 1] == a + init;
      TotalAppend(a, init, keep);
      TotalGood(a, keep);
      TotalGood(init, keep);
      MergeAssociates(Total(a, keep), Total(init, keep), Contribution(last, keep));
    }
  }

  /** Disjoint groups of rows add up. */
  lemma {:induction false} TotalUnion(rows: seq<Row>, a: set<Row>, b: set<Row>)
    requires NonNegative(rows) && a !! b
    ensures Total(rows, a + b) == Merge(Total(rows, a), Total(rows, b))
  {
    if rows != [] {
      var init, last := rows[..|rows| - 1], rows[|rows| - 1];
      TotalUnion(init, a, b);
      TotalGood(init, a);
      TotalGood(init, b);
      var x, y, c := Total(init, a), Total(init, b), Some(Leaf(last));
      if last in a {
        MergeAssociates(x, y, c);
        MergeCommutes(y, c);
        MergeAssociates(x, c, y);
      } else if last in b {
        MergeAssociates(x, y, c);
      }
    }
  }

  /** Only the rows at hand matter. */
  lemma {:induction false} TotalDepends(rows: seq<Row>, a: set<Row>, b: set<Row>)
    requires forall r | r in rows :: r in a <==> r in b
    ensures Total(rows, a) == Total(rows, b)
  {
    if rows != [] {
      assert rows[|rows| - 1] in rows;
      TotalDepends(rows[..|rows| - 1], a, b);
    }
  }

  lemma {:induction false} TotalRotate(a: seq<Row>, r: Row, b: seq<Row>, keep: set<Row>)
    requires NonNegative(a) && NonNegative(b) && r.size >= 0
    ensures Total(a + [r] + b, keep) == Total(a + b + [r], keep)
  {
    TotalAppend(a, [r], keep);
    TotalAppend(a + [r], b, keep);
    TotalAppend(a, b, keep);
    TotalAppend(a + b, [r], keep);
    TotalGood(a, keep);
    TotalGood(b, keep);
    TotalGood([r], keep);
    var x, y, z := Total(a, keep), Total([r], keep), Total(b, keep);
    MergeAssociates(x, y, z);
    MergeCommutes(y, z);
    MergeAssociates(x, z, y);
  }

  lemma {:induction false} RemoveOne(a: seq<Row>, b: seq<Row>, k: nat)
    requires multiset(a) == multiset(b) && a != [] && k < |b| && b[k] == a[|a| - 1]
    ensures multiset(a[..|a| - 1]) == multiset(b[..k] + b[k + 1..]) && |a| == |b|
  {
    assert a == a[..|a| - 1] + [b[k]];
    assert b == b[..k] + [b[k]] + b[k + 1..];
    assert multiset(a[..|a| - 1]) == multiset(a) - multiset{b[k]};
    assert multiset(b[..k] + b[k + 1..]) == multiset(b[..k]) + multiset(b[k + 1..]) == multiset(b) - multiset{b[k]};
    assert |multiset(a)| == |multiset(b)|;
  }

  lemma {:induction false} TotalTakeOut(b: seq<Row>, k: nat, keep: set<Row>)
    requires NonNegative(b) && k < |b|
    ensures NonNegative(b[..k] + b[k + 1..])
    ensures Total(b, keep) == Merge(Total(b[..k] + b[k + 1..], keep), Contribution(b[k], keep))
  {
    var pre, post := b[..k], b[k + 1..];
    TotalRotate(pre, b[k], post, keep);
    assert b == pre + [b[k]] + post;
    assert (pre + post + [b[k]])[..|b| - 1] == pre + post;
  }

  lemma {:induction false} SameRowsNonNegative(a: seq<Row>, b: seq<Row>)
    requires multiset(a) == multiset(b) && NonNegative(a)
    ensures NonNegative(b)
  {
    forall r | r in b ensures r.size >= 0 {
      assert r in multiset(a);
    }
  }

  /** Streaming order is irrelevant. */
  lemma {:induction false} TotalPermutation(a: seq<Row>, b: seq<Row>, keep: set<Row>)
    requires multiset(a) == multiset(b) && NonNegative(a)
    ensures Total(a, keep) == Total(b, keep)
    decreases |a|
  {
    if a == [] {
      assert |multiset(b)| == 0;
    } else {
      assert a[|a| - 1] in multiset(b);
      var k :| 0 <= k < |b| && b[k] == a[|a| - 1];
      RemoveOne(a, b, k);
      SameRowsNonNegative(a, b);
      TotalTakeOut(b, k, keep);
      TotalPermutation(a[..|a| - 1], b[..k] + b[k + 1..], keep);
    }
  }

  // ----- the meaning of a total -----------------------------------------------------------

  function Sum(rows: seq<Row>, keep: set<Row>): int {
    if rows == [] then 0
    else Sum(rows[..|rows| - 1], keep) + if rows[|rows| - 1] in keep then rows[|rows| - 1].size else 0
  }

  function Count(rows: seq<Row>, keep: set<Row>): nat {
    if rows == [] then 0
    else Count(rows[..|rows| - 1], keep) + if rows[|rows| - 1] in keep then 1 else 0
  }

  /** The true sum, capped once at the largest 64-bit value. */
  lemma {:induction false} SizeIsCappedSum(rows: seq<Row>, keep: set<Row>)
    requires NonNegative(rows)
    ensures Sum(rows, keep) >= 0
    ensures Total(rows, keep).None? <==> Count(rows, keep) == 0
    ensures Total(rows, keep).None? ==> Sum(rows, keep) == 0
    ensures Total(rows, keep).Some? ==>
              && Total(rows, keep).value.size == (if Sum(rows, keep) > I64_MAX then I64_MAX else Sum(rows, keep))
              && Total(rows, keep).value.count == Wrap(Count(rows, keep))
  {
    if rows != [] {
      SizeIsCappedSum(rows[..|rows| - 1], keep);
      WrapAbsorbs(Count(rows[..|rows| - 1], keep), 1);
    }
  }

  datatype Stamp = Modified | Accessed | Changed

  function Time(r: Row, s: Stamp): I64 {
    match s case Modified => r.mtime case Accessed => r.atime case Changed => r.ctime
  }

  function First(n: DirNode, s: Stamp): I64 {
    match s case Modified => n.mtimeFirst case Accessed => n.atimeFirst case Changed => n.ctimeFirst
  }

  function Last(n: DirNode, s: Stamp): I64 {
    match s case Modified => n.mtimeLast case Accessed => n.atimeLast case Changed => n.ctimeLast
  }

  ghost predicate IsTimeOf(t: I64, rows: seq<Row>, keep: set<Row>, s: Stamp) {
    exists r :: r in rows && r in keep && Time(r, s) == t
  }

  /** Each pair of times is the earliest and the latest over the rows, both reached. */
  lemma {:induction false} TimesAreExtremes(rows: seq<Row>, keep: set<Row>, s: Stamp)
    requires Total(rows, keep).Some?
    ensures forall r | r in rows && r in keep ::
              First(Total(rows, keep).value, s) <= Time(r, s) <= Last(Total(rows, keep).value, s)
    ensures IsTimeOf(First(Total(rows, keep).value, s), rows, keep, s)
    ensures IsTimeOf(Last(Total(rows, keep).value, s), rows, keep, s)
  {
    var init, last := rows[..|rows| - 1], rows[|rows| - 1];
    assert rows == init + [last];
    if Total(init, keep).Some? {
      TimesAreExtremes(init, keep, s);
      IsTimeOfMore(First(Total(init, keep).value, s), init, last, keep, s);
      IsTimeOfMore(Last(Total(init, keep).value, s), init, last, keep, s);
    } else {
      NoneMeansNoRow(init, keep);
    }
    if last in keep {
      assert IsTimeOf(Time(last, s), rows, keep, s);
    }
  }

  lemma {:induction false} IsTimeOfMore(t: I64, rows: seq<Row>, r: Row, keep: set<Row>, s: Stamp)
    requires IsTimeOf(t, rows, keep, s)
    ensures IsTimeOf(t, rows + [r], keep, s)
  {
    var q :| q in rows && q in keep && Time(q, s) == t;
    assert q in rows + [r];
  }

  lemma {:induction false} NoneMeansNoRow(rows: seq<Row>, keep: set<Row>)
    ensures Total(rows, keep).None? <==> forall r | r in rows :: r !in keep
  {
    if rows != [] {
      NoneMeansNoRow(rows[..|rows| - 1], keep);
      assert rows == rows[..|rows| - 1] + [rows[|rows| - 1]];
    }
  }

  // ----- children before parents ------------------------------------------------------------

  function DpStep(aggregates: map<string, DirNode>, row: Row): map<string, DirNode> {
    match ParentPath(row.path)
    case None => aggregates
    case Some(parent) =>
      if parent == "/" then aggregates
      else
        var subtree := Merge(Some(Leaf(row)), Get(aggregates, row.path));
        aggregates[parent := Merge(Get(aggregates, parent), subtree).value]
  }

  /** Each row hands its own statistics and its finished subtotal to its parent. */
  function BottomUpFold(rows: seq<Row>): map<string, DirNode> {
    if rows == [] then map[]
    else DpStep(BottomUpFold(rows[..|rows| - 1]), rows[|rows| - 1])
  }

  ghost predicate DeepestFirst(rows: seq<Row>) {
    forall i, j | 0 <= i < j < |rows| :: |rows[i].path| >= |rows[j].path|
  }

  ghost predicate HasPath(rows: seq<Row>, p: string) {
    exists r :: r in rows && r.path == p
  }

  ghost predicate AllCanonical(rows: seq<Row>) {
    forall r | r in rows :: Canonical(r.path)
  }

  /** Distinct canonical paths and non-negative sizes: any index a scan can leave. */
  ghost predicate WellFormedIndex(rows: seq<Row>) {
    && DistinctPaths(rows)
    && NonNegative(rows)
    && AllCanonical(rows)
  }

  /** Every directory strictly between `d` and `p` is a row. */
  ghost predicate Linked(rows: seq<Row>, d: string, p: string) {
    forall k | |Names(d)| < k < |Names(p)| :: HasPath(rows, Render(Names(p)[..k]))
  }

  ghost predicate Reaches(rows: seq<Row>, d: string, p: string) {
    d in Ancestors(Names(p)) && Linked(rows, d, p)
  }

  /** The rows that have reached `d` once `rows` are processed. */
  ghost function Via(rows: seq<Row>, d: string): set<Row> {
    set x | x in rows && Reaches(rows, d, x.path)
  }

  /** Every ancestor two or more levels below `/` of a row is a row itself. */
  ghost predicate DeepAncestorsIndexed(rows: seq<Row>) {
    forall x | x in rows :: DeepAncestorsAreRows(rows, x.path)
  }

  ghost predicate DeepAncestorsAreRows(rows: seq<Row>, p: string) {
    forall k | 2 <= k < |Names(p)| :: HasPath(rows, Render(Names(p)[..k]))
  }

  lemma {:induction false} PrefixRendersShorter(a: seq<string>, b: seq<string>)
    requires AreNames(a) && AreNames(b) && a < b
    ensures |Render(a)| < |Render(b)|
  {
    if a == [] {
      FlatAppend(b[..1], b[1..]);
      assert b == b[..1] + b[1..] && b[..1][..0] == [] && b[0] in b;
      assert Flat(b[..1]) == "" + "/" + b[0];
    } else {
      PrefixIsFlatPrefix(a, b);
    }
  }

  /** When `c` is processed, every row below it has reached it already. */
  lemma {:induction false} SubtreeComplete(rows: seq<Row>, n: nat, x: Row)
    requires DeepAncestorsIndexed(rows) && DeepestFirst(rows) && n < |rows| && x in rows
    requires Canonical(rows[n].path) && Canonical(x.path)
    requires rows[n].path in Ancestors(Names(x.path))
    ensures x in Via(rows[..n], rows[n].path)
  {
    var cs, xs := Names(rows[n].path), Names(x.path);
    AncestorsAreCovers(cs, xs);
    assert DeepAncestorsAreRows(rows, x.path);
    LongerIsEarlier(rows, n, x, cs, xs);
    forall k | |cs| < k < |xs|
      ensures HasPath(rows[..n], Render(xs[..k]))
    {
      assert HasPath(rows, Render(xs[..k]));
      var q :| q in rows && q.path == Render(xs[..k]);
      LongerIsEarlier(rows, n, q, cs, xs[..k]);
    }
  }

  lemma {:induction false} LongerIsEarlier(rows: seq<Row>, n: nat, q: Row, cs: seq<string>, qs: seq<string>)
    requires DeepestFirst(rows) && n < |rows| && q in rows
    requires AreNames(cs) && AreNames(qs) && cs < qs && q.path == Render(qs) && rows[n].path == Render(cs)
    ensures q in rows[..n]
  {
    PrefixRendersShorter(cs, qs);
    var i :| 0 <= i < |rows| && rows[i] == q;
    assert i < n;
    assert rows[..n][i] == q;
  }

  lemma {:induction false} HasPathStep(rows: seq<Row>, n: nat, p: string)
    requires n < |rows|
    ensures HasPath(rows[..n + 1], p) <==> HasPath(rows[..n], p) || p == rows[n].path
  {
    assert rows[..n + 1] == rows[..n] + [rows[n]];
  }

  lemma {:induction false} NotYetSeen(rows: seq<Row>, n: nat)
    requires DistinctPaths(rows) && n < |rows|
    ensures !HasPath(rows[..n], rows[n].path) && rows[n] !in rows[..n]
  {
  }

  lemma {:induction false} ShorterIsLater(rows: seq<Row>, n: nat, p: string)
    requires DeepestFirst(rows) && n < |rows| && |p| < |rows[n].path|
    ensures !HasPath(rows[..n + 1], p)
  {
  }

  /** The components of a directory and of a row below it. */
  lemma {:induction false} BelowIsPrefix(d: string, p: string)
    requires Canonical(p)
    ensures d in Ancestors(Names(p)) <==> Canonical(d) && Names(d) != [] && Names(d) < Names(p)
  {
    if d in Ancestors(Names(p)) {
      var k := AncestorIsProperPrefix(d, Names(p));
      NamesOfRender(Names(p)[..k]);
    }
    if Canonical(d) {
      AncestorsAreCovers(Names(d), Names(p));
    }
  }

  /** `d`, other than `/`, is the directory `c` lies in. */
  ghost predicate IsChild(c: string, d: string) {
    Canonical(d) && Names(d) != [] && Names(d) < Names(c) && |Names(c)| == |Names(d)| + 1
  }

  lemma {:induction false} ParentIsChild(c: string, d: string)
    requires Canonical(c) && d != "/"
    ensures ParentPath(c) == Some(d) <==> IsChild(c, d)
  {
    var cs := Names(c);
    ParentOfCanonical(cs);
    if cs != [] {
      NamesOfRender(cs[..|cs| - 1]);
    }
    if IsChild(c, d) {
      assert Names(d) == cs[..|cs| - 1];
    }
  }

  lemma {:induction false} SamePrefix(p: string, c: string, k: nat)
    requires Canonical(p) && Canonical(c) && k < |Names(p)|
    ensures c == Render(Names(p)[..k]) <==> |Names(c)| == k && Names(c) < Names(p)
  {
    NamesOfRender(Names(p)[..k]);
    if |Names(c)| == k && Names(c) < Names(p) {
      assert Names(p)[..k] == Names(c);
    }
  }

  /** What the row processed last adds to a chain: itself, if it lies on it. */
  lemma {:induction false} LinkStep(rows: seq<Row>, n: nat, p: string, k: nat)
    requires n < |rows| && Canonical(rows[n].path) && Canonical(p) && k < |Names(p)|
    ensures HasPath(rows[..n + 1], Render(Names(p)[..k])) <==>
            HasPath(rows[..n], Render(Names(p)[..k])) ||
            (k == |Names(rows[n].path)| && Names(rows[n].path) < Names(p))
  {
    HasPathStep(rows, n, Render(Names(p)[..k]));
    SamePrefix(p, rows[n].path, k);
  }

  /** The link to the parent `d` of the row processed last: through it, or not touched by it. */
  lemma {:induction false} LinkedToParent(rows: seq<Row>, n: nat, d: string, p: string)
    requires n < |rows| && Canonical(rows[n].path) && !HasPath(rows[..n], rows[n].path)
    requires Canonical(p) && p != rows[n].path
    requires |Names(rows[n].path)| == |Names(d)| + 1
    ensures Names(rows[n].path) < Names(p) ==>
              !Linked(rows[..n], d, p) && (Linked(rows[..n + 1], d, p) <==> Linked(rows[..n], rows[n].path, p))
    ensures !(Names(rows[n].path) < Names(p)) ==> (Linked(rows[..n + 1], d, p) <==> Linked(rows[..n], d, p))
  {
    var c := rows[n].path;
    var cs, ps := Names(c), Names(p);
    assert rows[..n + 1][n] == rows[n];
    assert HasPath(rows[..n + 1], c);
    forall k | |Names(d)| < k < |ps|
      ensures HasPath(rows[..n + 1], Render(ps[..k])) <==>
              HasPath(rows[..n], Render(ps[..k])) || (k == |cs| && cs < ps)
    {
      LinkStep(rows, n, p, k);
    }
    if cs < ps {
      SamePrefix(p, c, |cs|);
      assert !HasPath(rows[..n], Render(ps[..|cs|]));
    }
  }

  /** Processing `c` sends to its parent exactly what had reached `c`, ... */
  lemma {:induction false} ReachesParent(rows: seq<Row>, n: nat, d: string, p: string)
    requires n < |rows| && Canonical(rows[n].path) && !HasPath(rows[..n], rows[n].path)
    requires IsChild(rows[n].path, d) && Canonical(p) && p != rows[n].path
    ensures Reaches(rows[..n + 1], d, p) <==> Reaches(rows[..n], d, p) || Reaches(rows[..n], rows[n].path, p)
    ensures !(Reaches(rows[..n], d, p) && Reaches(rows[..n], rows[n].path, p))
  {
    BelowIsPrefix(d, p);
    BelowIsPrefix(rows[n].path, p);
    if Names(d) < Names(p) {
      LinkedToParent(rows, n, d, p);
    }
  }

  /** A row reaches its own parent at once, whatever else is indexed. */
  lemma {:induction false} ReachesOwnParent(rows: seq<Row>, c: string, d: string)
    requires Canonical(c) && IsChild(c, d)
    ensures Reaches(rows, d, c)
  {
    BelowIsPrefix(d, c);
  }

  /** A directory strictly between `d` and the row processed last is still to come. */
  lemma {:induction false} BetweenIsLater(rows: seq<Row>, n: nat, d: string) returns (k: nat)
    requires DeepestFirst(rows) && n < |rows| && Canonical(rows[n].path)
    requires |Names(d)| + 1 < |Names(rows[n].path)|
    ensures |Names(d)| < k < |Names(rows[n].path)|
    ensures !HasPath(rows[..n + 1], Render(Names(rows[n].path)[..k]))
  {
    var cs := Names(rows[n].path);
    k := |cs| - 1;
    PrefixRendersShorter(cs[..k], cs);
    ShorterIsLater(rows, n, Render(cs[..k]));
  }

  /** ... and nothing to any other directory. */
  lemma {:induction false} ReachesOther(rows: seq<Row>, n: nat, d: string, p: string)
    requires DeepestFirst(rows) && n < |rows|
    requires Canonical(rows[n].path) && Canonical(p) && !IsChild(rows[n].path, d)
    ensures Reaches(rows[..n + 1], d, p) <==> Reaches(rows[..n], d, p)
  {
    if d in Ancestors(Names(p)) {
      BelowIsPrefix(d, p);
      LinkedElsewhere(rows, n, d, p);
    }
  }

  lemma {:induction false} LinkedElsewhere(rows: seq<Row>, n: nat, d: string, p: string)
    requires DeepestFirst(rows) && n < |rows| && Canonical(rows[n].path) && !IsChild(rows[n].path, d)
    requires Canonical(p) && Canonical(d) && Names(d) != [] && Names(d) < Names(p)
    ensures Linked(rows[..n + 1], d, p) <==> Linked(rows[..n], d, p)
  {
    if Names(rows[n].path) < Names(p) && |Names(d)| < |Names(rows[n].path)| {
      Nested(Names(d), Names(rows[n].path), Names(p));
      CutBetween(rows, n, d, p);
    } else {
      UntouchedLink(rows, n, d, p);
    }
  }

  lemma {:induction false} CutBetween(rows: seq<Row>, n: nat, d: string, p: string)
    requires DeepestFirst(rows) && n < |rows| && Canonical(rows[n].path)
    requires |Names(d)| + 1 < |Names(rows[n].path)| && Names(rows[n].path) < Names(p)
    ensures !Linked(rows[..n + 1], d, p) && !Linked(rows[..n], d, p)
  {
    var k := BetweenIsLater(rows, n, d);
    CutLink(rows, n, d, p, k);
  }

  lemma {:induction false} Nested(a: seq<string>, b: seq<string>, c: seq<string>)
    requires a < c && b < c && |a| < |b|
    ensures a < b
  {
    assert a == c[..|a|] && b == c[..|b|];
  }

  lemma {:induction false} UntouchedLink(rows: seq<Row>, n: nat, d: string, p: string)
    requires n < |rows| && Canonical(rows[n].path) && Canonical(p)
    requires !(Names(rows[n].path) < Names(p)) || |Names(rows[n].path)| <= |Names(d)|
    ensures Linked(rows[..n + 1], d, p) <==> Linked(rows[..n], d, p)
  {
    forall k | |Names(d)| < k < |Names(p)|
      ensures HasPath(rows[..n + 1], Render(Names(p)[..k])) <==> HasPath(rows[..n], Render(Names(p)[..k]))
    {
      LinkStep(rows, n, p, k);
    }
  }

  lemma {:induction false} CutLink(rows: seq<Row>, n: nat, d: string, p: string, k: nat)
    requires n < |rows| && |Names(d)| < k < |Names(rows[n].path)| && Names(rows[n].path) < Names(p)
    requires !HasPath(rows[..n + 1], Render(Names(rows[n].path)[..k]))
    ensures !Linked(rows[..n + 1], d, p) && !Linked(rows[..n], d, p)
  {
    HasPathStep(rows, n, Render(Names(rows[n].path)[..k]));
    assert Names(p)[..k] == Names(rows[n].path)[..k];
  }

  lemma {:induction false} ViaOtherOfSelf(rows: seq<Row>, n: nat, d: string)
    requires DeepestFirst(rows) && n < |rows| && Canonical(rows[n].path) && !IsChild(rows[n].path, d)
    ensures rows[n] !in Via(rows[..n + 1], d)
  {
    if d in Ancestors(Names(rows[n].path)) {
      BelowIsPrefix(d, rows[n].path);
      var k := BetweenIsLater(rows, n, d);
    }
  }

  lemma {:induction false} NothingReachesRoot(rows: seq<Row>, other: seq<Row>)
    requires AllCanonical(rows)
    ensures Total(other, Via(rows, "/")) == None
  {
    forall x | x in rows ensures "/" !in Ancestors(Names(x.path)) {
      AncestorsDistinct(Names(x.path));
    }
    NoneMeansNoRow(other, Via(rows, "/"));
  }

  lemma {:induction false} ViaParentAll(rows: seq<Row>, n: nat, d: string)
    requires WellFormedIndex(rows) && n < |rows| && IsChild(rows[n].path, d)
    ensures Via(rows[..n], d) !! Via(rows[..n], rows[n].path)
    ensures forall x | x in rows[..n] ::
              x in Via(rows[..n + 1], d) <==> x in Via(rows[..n], d) + Via(rows[..n], rows[n].path)
  {
    forall x | x in rows[..n]
      ensures x in Via(rows[..n + 1], d) <==> x in Via(rows[..n], d) || x in Via(rows[..n], rows[n].path)
      ensures !(x in Via(rows[..n], d) && x in Via(rows[..n], rows[n].path))
    {
      SliceMember(rows, n, x);
      NotYetSeen(rows, n);
      ReachesParent(rows, n, d, x.path);
    }
  }

  lemma {:induction false} ViaOtherAll(rows: seq<Row>, n: nat, d: string)
    requires AllCanonical(rows) && DeepestFirst(rows) && n < |rows| && !IsChild(rows[n].path, d)
    ensures rows[n] !in Via(rows[..n + 1], d)
    ensures forall x | x in rows[..n] :: x in Via(rows[..n + 1], d) <==> x in Via(rows[..n], d)
  {
    ViaOtherOfSelf(rows, n, d);
    forall x | x in rows[..n]
      ensures x in Via(rows[..n + 1], d) <==> x in Via(rows[..n], d)
    {
      SliceMember(rows, n, x);
      ReachesOther(rows, n, d, x.path);
    }
  }

  lemma {:induction false} SliceMember(rows: seq<Row>, n: nat, x: Row)
    requires n < |rows| && x in rows[..n]
    ensures x in rows && x in rows[..n + 1]
  {
    assert rows[..n + 1] == rows[..n] + [rows[n]];
  }

  /** One row of the sorted pass keeps every directory's subtotal exact. */
  lemma {:induction false} StepExact(rows: seq<Row>, n: nat, d: string)
    requires WellFormedIndex(rows) && DeepestFirst(rows) && n < |rows|
    requires d != "/"
    ensures Total(rows[..n + 1], Via(rows[..n + 1], d)) ==
              if ParentPath(rows[n].path) == Some(d)
              then Merge(Total(rows[..n], Via(rows[..n], d)),
                         Merge(Some(Leaf(rows[n])), Total(rows[..n], Via(rows[..n], rows[n].path))))
              else Total(rows[..n], Via(rows[..n], d))
  {
    var c, seen := rows[n], rows[..n];
    assert rows[..n + 1] == seen + [c];
    assert NonNegative(seen) && c.size >= 0;
    var now, prior, own := Via(rows[..n + 1], d), Via(seen, d), Via(seen, c.path);
    assert Canonical(c.path);
    ParentIsChild(c.path, d);
    if ParentPath(c.path) == Some(d) {
      ViaParentAll(rows, n, d);
      ReachesOwnParent(rows[..n + 1], c.path, d);
      TakesIn(seen, c, now, prior, own);
    } else {
      ViaOtherAll(rows, n, d);
      PassesBy(seen, c, now, prior);
    }
  }

  lemma {:induction false} TakesIn(seen: seq<Row>, c: Row, now: set<Row>, prior: set<Row>, own: set<Row>)
    requires NonNegative(seen) && c.size >= 0 && prior !! own && c in now
    requires forall x | x in seen :: x in now <==> x in prior + own
    ensures Total(seen + [c], now) == Merge(Total(seen, prior), Merge(Some(Leaf(c)), Total(seen, own)))
  {
    assert (seen + [c])[..|seen|] == seen;
    TotalDepends(seen, now, prior + own);
    SubtreeArrives(seen, c, prior, own);
  }

  lemma {:induction false} PassesBy(seen: seq<Row>, c: Row, now: set<Row>, prior: set<Row>)
    requires c !in now && forall x | x in seen :: x in now <==> x in prior
    ensures Total(seen + [c], now) == Total(seen, prior)
  {
    assert (seen + [c])[..|seen|] == seen;
    TotalDepends(seen, now, prior);
  }

  lemma {:induction false} SubtreeArrives(seen: seq<Row>, c: Row, prior: set<Row>, own: set<Row>)
    requires NonNegative(seen) && c.size >= 0 && prior !! own
    ensures Merge(Total(seen, prior + own), Some(Leaf(c))) ==
            Merge(Total(seen, prior), Merge(Some(Leaf(c)), Total(seen, own)))
  {
    TotalUnion(seen, prior, own);
    TotalGood(seen, prior);
    TotalGood(seen, own);
    MergeAssociates(Total(seen, prior), Total(seen, own), Some(Leaf(c)));
    MergeCommutes(Total(seen, own), Some(Leaf(c)));
  }

  /** What the sorted pass does with one more row. */
  lemma {:induction false} FoldStep(rows: seq<Row>, k: nat, d: string)
    requires k < |rows|
    ensures var before, c := BottomUpFold(rows[..k]), rows[k];
            Get(BottomUpFold(rows[..k + 1]), d) ==
              if d != "/" && ParentPath(c.path) == Some(d)
              then Merge(Get(before, d), Merge(Some(Leaf(c)), Get(before, c.path)))
              else Get(before, d)
  {
    assert rows[..k + 1][..k] == rows[..k] && rows[..k + 1][k] == rows[k];
  }

  lemma {:induction false} SubtotalsExact(rows: seq<Row>, n: nat, d: string)
    requires WellFormedIndex(rows) && DeepestFirst(rows) && n <= |rows|
    ensures Get(BottomUpFold(rows[..n]), d) == Total(rows[..n], Via(rows[..n], d))
  {
    if n > 0 {
      var k := n - 1;
      SubtotalsExact(rows, k, d);
      SubtotalsExact(rows, k, rows[k].path);
      FoldStep(rows, k, d);
      if d == "/" {
        assert AllCanonical(rows[..n]) && AllCanonical(rows[..k]);
        NothingReachesRoot(rows[..n], rows[..n]);
        NothingReachesRoot(rows[..k], rows[..k]);
      } else {
        StepExact(rows, k, d);
      }
    }
  }

  /** The sorted pass computes, for every directory, the total over the rows below it whose
      chain up to it is indexed. */
  lemma {:induction false} BottomUpReaches(rows: seq<Row>, d: string)
    requires WellFormedIndex(rows) && DeepestFirst(rows)
    ensures Get(BottomUpFold(rows), d) == Total(rows, Via(rows, d))
  {
    SubtotalsExact(rows, |rows|, d);
    assert rows[..|rows|] == rows;
  }

  lemma {:induction false} ViaIsBelow(rows: seq<Row>, d: string)
    requires WellFormedIndex(rows) && DeepAncestorsIndexed(rows)
    ensures Via(rows, d) == Below(rows, d)
  {
    forall x | x in rows && d in Ancestors(Names(x.path))
      ensures Linked(rows, d, x.path)
    {
      BelowIsPrefix(d, x.path);
      assert DeepAncestorsAreRows(rows, x.path);
    }
  }

  /** With every deep ancestor indexed that is the total over its strict descendants. */
  lemma {:induction false} BottomUpIsExact(rows: seq<Row>, d: string)
    requires WellFormedIndex(rows) && DeepAncestorsIndexed(rows) && DeepestFirst(rows)
    ensures Get(BottomUpFold(rows), d) == Total(rows, Below(rows, d))
  {
    BottomUpReaches(rows, d);
    ViaIsBelow(rows, d);
  }

  lemma {:induction false} StreamedTotal(
    aggregates: map<string, DirNode>, streamed: seq<Row>, sorted: seq<Row>, d: string)
    requires Agrees(aggregates, streamed, |streamed|)
    requires multiset(streamed) == multiset(sorted) && NonNegative(sorted)
    ensures Get(aggregates, d) == Total(sorted, Below(sorted, d))
  {
    assert streamed[..|streamed|] == streamed;
    SameMembers(streamed, sorted);
    assert Below(streamed, d) == Below(sorted, d);
    TotalPermutation(streamed, sorted, Below(sorted, d));
  }

  /** Whatever order the rows stream in, the run's aggregates are those of the sorted
      children-before-parents pass over the same rows, when every deep ancestor is indexed. */
  lemma {:induction false} StreamingRefinesBottomUp(
    aggregates: map<string, DirNode>, streamed: seq<Row>, sorted: seq<Row>)
    requires Agrees(aggregates, streamed, |streamed|)
    requires multiset(streamed) == multiset(sorted)
    requires WellFormedIndex(sorted) && DeepAncestorsIndexed(sorted) && DeepestFirst(sorted)
    ensures aggregates == BottomUpFold(sorted)
  {
    forall d: string
      ensures Get(aggregates, d) == Get(BottomUpFold(sorted), d)
    {
      BottomUpIsExact(sorted, d);
      StreamedTotal(aggregates, streamed, sorted, d);
    }
    MapsEqual(aggregates, BottomUpFold(sorted));
  }

  // ----- and only then ------------------------------------------------------------------------

  lemma {:induction false} FewerCounted(rows: seq<Row>, a: set<Row>, b: set<Row>)
    requires forall r | r in rows :: r in a ==> r in b
    ensures Count(rows, a) <= Count(rows, b) <= |rows|
    ensures (exists r :: r in rows && r in b && r !in a) ==> Count(rows, a) < Count(rows, b)
  {
    if rows != [] {
      FewerCounted(rows[..|rows| - 1], a, b);
    }
  }

  lemma {:induction false} WrapSeparates(m: nat, n: nat)
    requires m < n < 0x1_0000_0000_0000_0000
    ensures Wrap(m) != Wrap(n)
  {
  }

  /** Totals over different numbers of rows differ, in the count if nowhere else. */
  lemma {:induction false} TotalsDiffer(rows: seq<Row>, a: set<Row>, b: set<Row>, x: Row)
    requires NonNegative(rows) && |rows| < 0x1_0000_0000_0000_0000
    requires forall r | r in rows :: r in a ==> r in b
    requires x in rows && x in b && x !in a
    ensures Total(rows, a) != Total(rows, b)
  {
    FewerCounted(rows, a, b);
    SizeIsCappedSum(rows, a);
    SizeIsCappedSum(rows, b);
    WrapSeparates(Count(rows, a), Count(rows, b));
  }

  /** An unindexed deep ancestor of a row cuts it off from the directory above. */
  lemma {:induction false} GapCutsOff(rows: seq<Row>, x: Row, k: nat)
    requires WellFormedIndex(rows) && x in rows
    requires 2 <= k < |Names(x.path)| && !HasPath(rows, Render(Names(x.path)[..k]))
    ensures var d := Render(Names(x.path)[..k - 1]); x in Below(rows, d) && x !in Via(rows, d)
  {
    var xs := Names(x.path);
    NamesOfRender(xs[..k - 1]);
    ProperPrefixIsAncestor(xs, k - 1);
  }

  /** Streaming and the sorted pass agree on an index exactly when every ancestor two or more
      levels below `/` of a row is a row. */
  lemma {:induction false} StreamingIsBottomUpExactly(
    aggregates: map<string, DirNode>, streamed: seq<Row>, sorted: seq<Row>)
    requires Agrees(aggregates, streamed, |streamed|)
    requires multiset(streamed) == multiset(sorted)
    requires WellFormedIndex(sorted) && DeepestFirst(sorted) && |sorted| < 0x1_0000_0000_0000_0000
    ensures aggregates == BottomUpFold(sorted) <==> DeepAncestorsIndexed(sorted)
  {
    if DeepAncestorsIndexed(sorted) {
      StreamingRefinesBottomUp(aggregates, streamed, sorted);
    } else {
      var x :| x in sorted && !DeepAncestorsAreRows(sorted, x.path);
      var k :| 2 <= k < |Names(x.path)| && !HasPath(sorted, Render(Names(x.path)[..k]));
      var d := Render(Names(x.path)[..k - 1]);
      GapCutsOff(sorted, x, k);
      BottomUpReaches(sorted, d);
      StreamedTotal(aggregates, streamed, sorted, d);
      TotalsDiffer(sorted, Via(sorted, d), Below(sorted, d), x);
    }
  }

  /** So they differ on every index of a scan root three or more levels below `/`. */
  lemma {:induction false} DeepRootDiffers(
    root: seq<string>, aggregates: map<string, DirNode>, streamed: seq<Row>, sorted: seq<Row>)
    requires Agrees(aggregates, streamed, |streamed|)
    requires multiset(streamed) == multiset(sorted)
    requires WellFormedIndex(sorted) && DeepestFirst(sorted) && 0 < |sorted| < 0x1_0000_0000_0000_0000
    requires |root| >= 3 && forall r | r in sorted :: root <= Names(r.path)
    ensures aggregates != BottomUpFold(sorted)
  {
    DeepRootHasGap(root, sorted);
    StreamingIsBottomUpExactly(aggregates, streamed, sorted);
  }

  lemma {:induction false} DeepRootHasGap(root: seq<string>, rows: seq<Row>)
    requires rows != [] && AllCanonical(rows) && |root| >= 3
    requires forall r | r in rows :: root <= Names(r.path)
    ensures !DeepAncestorsIndexed(rows)
  {
    var x := rows[0];
    var cut := Names(x.path)[..2];
    NamesOfRender(cut);
    assert x in rows && !HasPath(rows, Render(cut));
    assert !DeepAncestorsAreRows(rows, x.path);
  }

  /** Without the sign condition the order matters: three files of one directory, streamed in
      two orders, with two different totals. */
  lemma {:induction false} NegativeSizesDependOnOrder(dir: string, l: string, m: string, n: string)
    returns (a: seq<Row>, b: seq<Row>, d: string)
    requires IsName(dir) && IsName(l) && IsName(m) && IsName(n) && l != m && m != n && l != n
    ensures multiset(a) == multiset(b) && DistinctPaths(a) && AllCanonical(a)
    ensures Below(a, d) == Below(b, d) && Total(a, Below(a, d)) != Total(b, Below(b, d))
  {
    d := Render([dir]);
    var x := SizedFile(dir, l, I64_MAX);
    var y := SizedFile(dir, m, 1);
    var z := SizedFile(dir, n, -1);
    a, b := [x, y, z], [y, z, x];
    ThreeDistinct(x, y, z);
    TwoOrdersTwoTotals(x, y, z, d);
  }

  lemma {:induction false} ThreeDistinct(x: Row, y: Row, z: Row)
    requires Canonical(x.path) && Canonical(y.path) && Canonical(z.path)
    requires x.path != y.path && y.path != z.path && x.path != z.path
    ensures DistinctPaths([x, y, z]) && AllCanonical([x, y, z]) && multiset([x, y, z]) == multiset([y, z, x])
  {
  }

  lemma {:induction false} ThreeBelow(p: Row, q: Row, r: Row, d: string)
    requires forall f | f in [p, q, r] :: d in Ancestors(Names(f.path))
    ensures Below([p, q, r], d) == {p, q, r}
  {
  }

  lemma {:induction false} TwoOrdersTwoTotals(x: Row, y: Row, z: Row, d: string)
    requires x.size == I64_MAX && y.size == 1 && z.size == -1
    requires forall f | f in [x, y, z] :: d in Ancestors(Names(f.path))
    ensures Below([x, y, z], d) == Below([y, z, x], d)
    ensures Total([x, y, z], Below([x, y, z], d)) != Total([y, z, x], Below([y, z, x], d))
  {
    ThreeBelow(x, y, z, d);
    ThreeBelow(y, z, x, d);
    TotalOfThree(x, y, z, {x, y, z});
    TotalOfThree(y, z, x, {y, z, x});
  }

  lemma {:induction false} TotalOfThree(p: Row, q: Row, r: Row, keep: set<Row>)
    requires p in keep && q in keep && r in keep
    ensures Total([p, q, r], keep) == Merge(Merge(Some(Leaf(p)), Some(Leaf(q))), Some(Leaf(r)))
  {
    assert [p, q, r][..2] == [p, q] && [p, q][..1] == [p] && [p][..0] == [];
    assert Total([p], keep) == Some(Leaf(p));
  }

  /** A file in a directory at the top. */
  lemma {:induction false} SizedFile(dir: string, name: string, size: I64) returns (r: Row)
    requires IsName(dir) && IsName(name)
    ensures r.size == size && Canonical(r.path) && |Names(r.path)| == 2 && Names(r.path)[1] == name
    ensures Render([dir]) in Ancestors(Names(r.path))
  {
    r := Row(Render([dir, name]), 1, size, 0, 0, 0, 0, 0);
    NamesOfRender([dir, name]);
    assert [dir, name][..1] == [dir];
    ProperPrefixIsAncestor([dir, name], 1);
  }

  lemma {:induction false} MapsEqual(a: map<string, DirNode>, b: map<string, DirNode>)
    requires forall d: string :: Get(a, d) == Get(b, d)
    ensures a == b
  {
    forall d: string ensures (d in a <==> d in b) && (d in a ==> a[d] == b[d]) {
      assert Get(a, d) == Get(b, d);
    }
  }

  /** A finished run has an entry for a directory exactly when something lies below it. */
  lemma {:induction false} DirectoryHasEntry(aggregates: map<string, DirNode>, rows: seq<Row>, d: string)
    requires Agrees(aggregates, rows, |rows|)
    ensures d in aggregates <==> exists r :: r in rows && d in Ancestors(Names(r.path))
  {
    assert rows[..|rows|] == rows;
    assert Get(aggregates, d) == Total(rows, Below(rows, d));
    NoneMeansNoRow(rows, Below(rows, d));
  }

  /** Its size is the true sum capped at the largest 64-bit value, its count that of the rows. */
  lemma {:induction false} DirectorySizes(aggregates: map<string, DirNode>, rows: seq<Row>, d: string)
    requires Agrees(aggregates, rows, |rows|) && NonNegative(rows) && d in aggregates
    ensures var sum, count := Sum(rows, Below(rows, d)), Count(rows, Below(rows, d));
            && aggregates[d].size == (if sum > 0x7fff_ffff_ffff_ffff then 0x7fff_ffff_ffff_ffff else sum)
            && aggregates[d].count == Wrap(count)
  {
    assert rows[..|rows|] == rows;
    assert Get(aggregates, d) == Total(rows, Below(rows, d));
    SizeIsCappedSum(rows, Below(rows, d));
  }

  lemma {:induction false} DirectoryTimes(aggregates: map<string, DirNode>, rows: seq<Row>, d: string, s: Stamp)
    requires Agrees(aggregates, rows, |rows|) && d in aggregates
    ensures forall r | r in rows && d in Ancestors(Names(r.path)) ::
              First(aggregates[d], s) <= Time(r, s) <= Last(aggregates[d], s)
    ensures IsTimeOf(First(aggregates[d], s), rows, Below(rows, d), s)
    ensures IsTimeOf(Last(aggregates[d], s), rows, Below(rows, d), s)
  {
    assert rows[..|rows|] == rows;
    assert Get(aggregates, d) == Total(rows, Below(rows, d));
    TimesAreExtremes(rows, Below(rows, d), s);
  }

  /** A user's or group's totals: the capped sum and the number of entries it owns. */
  lemma {:induction false} OwnerUsage(users: map<Owner, (I64, I64)>, rows: seq<Row>, o: Owner)
    requires UsersAgree(users, rows, |rows|) && NonNegative(rows)
    ensures o in users <==> Count(rows, OwnedBy(rows, o)) > 0
    ensures o in users ==>
              var sum, count := Sum(rows, OwnedBy(rows, o)), Count(rows, OwnedBy(rows, o));
              && users[o].0 == (if sum > 0x7fff_ffff_ffff_ffff then 0x7fff_ffff_ffff_ffff else sum)
              && users[o].1 == Wrap(count)
  {
    assert rows[..|rows|] == rows;
    assert Get(users, o) == Usage(Total(rows, OwnedBy(rows, o)));
    SizeIsCappedSum(rows, OwnedBy(rows, o));
  }
}
