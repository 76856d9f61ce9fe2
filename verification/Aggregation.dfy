/** The aggregator: one streaming pass that folds every indexed row into all its ancestor
    directories, proved equal to the sorted children-before-parents computation. */
module Aggregation {
  import opened Text
  import opened Paths

  // ----- 64-bit arithmetic ------------------------------------------------------------

  const I64_MAX: int := 0x7fff_ffff_ffff_ffff
  const I64_MIN: int := -0x8000_0000_0000_0000

  type I64 = x: int | I64_MIN <= x <= I64_MAX

  function SaturatingAdd(a: I64, b: I64): I64 {
    if a + b > I64_MAX then I64_MAX else if a + b < I64_MIN then I64_MIN else a + b
  }

  /** Two's-complement wrap-around: the release build has no overflow checks. */
  function Wrap(x: int): I64 {
    (x - I64_MIN) % 0x1_0000_0000_0000_0000 + I64_MIN
  }

  function Min(a: I64, b: I64): I64 { if a <= b then a else b }

  function Max(a: I64, b: I64): I64 { if a <= b then b else a }

  // ----- rows and directory nodes -----------------------------------------------------

  datatype Row = Row(
    path: string, fileType: int, size: I64, mtime: I64, atime: I64, ctime: I64, uid: int, gid: int)

  datatype DirNode = DirNode(
    size: I64, mtimeFirst: I64, mtimeLast: I64, atimeFirst: I64, atimeLast: I64,
    ctimeFirst: I64, ctimeLast: I64, count: I64)

  datatype Owner = Uid(id: int) | Gid(id: int)

  function Leaf(r: Row): DirNode {
    DirNode(r.size, r.mtime, r.mtime, r.atime, r.atime, r.ctime, r.ctime, 1)
  }

  function MergeNodes(a: DirNode, b: DirNode): DirNode {
    DirNode(SaturatingAdd(a.size, b.size),
            Min(a.mtimeFirst, b.mtimeFirst), Max(a.mtimeLast, b.mtimeLast),
            Min(a.atimeFirst, b.atimeFirst), Max(a.atimeLast, b.atimeLast),
            Min(a.ctimeFirst, b.ctimeFirst), Max(a.ctimeLast, b.ctimeLast),
            Wrap(a.count + b.count))
  }

  function Merge(a: Option<DirNode>, b: Option<DirNode>): Option<DirNode> {
    if a.None? then b else if b.None? then a else Some(MergeNodes(a.value, b.value))
  }

  function Get<K, V>(m: map<K, V>, k: K): Option<V> {
    if k in m then Some(m[k]) else None
  }

  // ----- what a directory's statistics are ---------------------------------------------

  function Contribution(r: Row, keep: set<Row>): Option<DirNode> {
    if r in keep then Some(Leaf(r)) else None
  }

  /** The statistics of the rows that are in `keep`. */
  function Total(rows: seq<Row>, keep: set<Row>): Option<DirNode> {
    if rows == [] then None
    else Merge(Total(rows[..|rows| - 1], keep), Contribution(rows[|rows| - 1], keep))
  }

  /** Strict descendants of directory `d`; `/` is nobody's reported ancestor. */
  function Below(rows: seq<Row>, d: string): set<Row> {
    set r | r in rows && d in Ancestors(Names(r.path))
  }

  function OwnedBy(rows: seq<Row>, o: Owner): set<Row> {
    set r | r in rows && (if o.Uid? then r.uid == o.id else r.gid == o.id)
  }

  ghost predicate DistinctPaths(rows: seq<Row>) {
    forall i, j | 0 <= i < j < |rows| :: rows[i].path != rows[j].path
  }

  /** The rows the run reads: `/proc/kcore` removed, files and directories only. */
  function Selected(table: seq<Row>): seq<Row> {
    if table == [] then []
    else
      var r := table[|table| - 1];
      Selected(table[..|table| - 1]) + if r.path != "/proc/kcore" && r.fileType in {1, 2} then [r] else []
  }

  // ----- the streaming run -----------------------------------------------------------------

  /** What `Path::ancestors` yields for a canonical path: itself first, `/` last. */
  function SelfAndAncestors(cs: seq<string>): seq<string> {
    if cs == [] then ["/"] else [Render(cs)] + SelfAndAncestors(cs[..|cs| - 1])
  }

  /** The loop skips the path itself, then meets its directories, then `/`. */
  lemma {:induction false} SelfAndAncestorsShape(cs: seq<string>)
    requires AreNames(cs)
    ensures var chain, dirs := SelfAndAncestors(cs), Ancestors(cs);
            && |chain| == |dirs| + (if cs == [] then 1 else 2)
            && chain[|chain| - 1] == "/"
            && forall k | 0 < k <= |dirs| :: chain[k] == dirs[k - 1] && chain[k] in dirs
  {
    if cs != [] {
      SelfAndAncestorsShape(cs[..|cs| - 1]);
    }
  }

  lemma {:induction false} AncestorsDistinct(cs: seq<string>)
    requires AreNames(cs)
    ensures forall i, j | 0 <= i < j < |Ancestors(cs)| :: Ancestors(cs)[i] != Ancestors(cs)[j]
    ensures "/" !in Ancestors(cs) && "" !in Ancestors(cs)
  {
    if |cs| > 1 {
      var init := cs[..|cs| - 1];
      AncestorsDistinct(init);
      NamesOfRender([]);
      NamesOfRender(init);
      AncestorsAreCovers(init, init);
      RenderStartsWithSlash(init);
    }
  }

  /** Everything the fold has to have recorded once `rows[..n]` are processed. */
  ghost predicate Agrees(aggregates: map<string, DirNode>, rows: seq<Row>, n: nat)
    requires n <= |rows|
  {
    forall d: string :: Get(aggregates, d) == Total(rows[..n], Below(rows, d))
  }

  function Usage(node: Option<DirNode>): Option<(I64, I64)> {
    if node.None? then None else Some((node.value.size, node.value.count))
  }

  ghost predicate UsersAgree(users: map<Owner, (I64, I64)>, rows: seq<Row>, n: nat)
    requires n <= |rows|
  {
    forall o: Owner :: Get(users, o) == Usage(Total(rows[..n], OwnedBy(rows, o)))
  }

  /** `entry(key).or_insert((0, 0))` followed by the two additions. */
  function Charge(users: map<Owner, (I64, I64)>, o: Owner, size: I64): map<Owner, (I64, I64)> {
    var bytes: int, files: int := if o in users then users[o].0 else 0, if o in users then users[o].1 else 0;
    users[o := (SaturatingAdd(bytes, size), Wrap(files + 1))]
  }

  /** `match aggregates.get_mut(anc)`: update the entry or create it. */
  function Touch(aggregates: map<string, DirNode>, anc: string, row: Row): (r: map<string, DirNode>)
    ensures forall d :: Get(r, d) == Folded(aggregates, row, [anc], d)
  {
    match Get(aggregates, anc)
    case Some(node) =>
      aggregates[anc := DirNode(
        SaturatingAdd(node.size, row.size),
        Min(node.mtimeFirst, row.mtime), Max(node.mtimeLast, row.mtime),
        Min(node.atimeFirst, row.atime), Max(node.atimeLast, row.atime),
        Min(node.ctimeFirst, row.ctime), Max(node.ctimeLast, row.ctime),
        Wrap(node.count + 1))]
    case None =>
      aggregates[anc := DirNode(row.size, row.mtime, row.mtime, row.atime, row.atime, row.ctime, row.ctime, 1)]
  }

  /** The entry for `d` once `row` has been folded into the directories `dirs`. */
  function Folded(aggregates: map<string, DirNode>, row: Row, dirs: seq<string>, d: string): Option<DirNode> {
    if d in dirs then Merge(Get(aggregates, d), Some(Leaf(row))) else Get(aggregates, d)
  }

  lemma FoldedTwice(
    a: map<string, DirNode>, b: map<string, DirNode>, c: map<string, DirNode>,
    row: Row, dirs: seq<string>, anc: string)
    requires anc !in dirs
    requires forall d :: Get(b, d) == Folded(a, row, dirs, d)
    requires forall d :: Get(c, d) == Folded(b, row, [anc], d)
    ensures forall d :: Get(c, d) == Folded(a, row, dirs + [anc], d)
  {
    forall d ensures Get(c, d) == Folded(a, row, dirs + [anc], d) {
      assert Get(c, d) == Folded(b, row, [anc], d) && Get(b, d) == Folded(a, row, dirs, d);
      assert d in dirs + [anc] <==> d in dirs || d == anc;
    }
  }

  method FoldIntoAncestors(aggregates: map<string, DirNode>, row: Row) returns (r: map<string, DirNode>)
    requires Canonical(row.path)
    ensures forall d :: Get(r, d) == Folded(aggregates, row, Ancestors(Names(row.path)), d)
  {
    r := aggregates;
    var chain := SelfAndAncestors(Names(row.path));
    ghost var dirs := Ancestors(Names(row.path));
    SelfAndAncestorsShape(Names(row.path));
    AncestorsDistinct(Names(row.path));
    var i := 1;
    while i < |chain|
      invariant 1 <= i <= |dirs| + 1
      invariant forall d :: Get(r, d) == Folded(aggregates, row, dirs[..i - 1], d)
    {
      var anc := chain[i];
      if anc == "" || anc == "/" { break; }
      ghost var before := r;
      r := Touch(r, anc, row);
      FoldedTwice(aggregates, before, r, row, dirs[..i - 1], anc);
      assert dirs[..i] == dirs[..i - 1] + [anc];
      i := i + 1;
    }
    assert i == |dirs| + 1 && dirs[..|dirs|] == dirs;
  }

  /** The `while let` loop over the streamed rows. */
  method RunAggregation(table: seq<Row>)
    returns (aggregates: map<string, DirNode>, users: map<Owner, (I64, I64)>, processed: nat)
    requires forall r | r in table :: Canonical(r.path)
    ensures Agrees(aggregates, Selected(table), |Selected(table)|)
    ensures UsersAgree(users, Selected(table), |Selected(table)|)
    ensures processed == |Selected(table)|
  {
    var rows := Selected(table);
    SelectedRows(table);
    aggregates, users, processed := map[], map[], 0;
    while processed < |rows|
      invariant processed <= |rows|
      invariant Agrees(aggregates, rows, processed)
      invariant UsersAgree(users, rows, processed)
    {
      var row := rows[processed];
      StepUsersAgree(users, rows, processed);
      users := Charge(users, Uid(row.uid), row.size);
      users := Charge(users, Gid(row.gid), row.size);
      ghost var before := aggregates;
      aggregates := FoldIntoAncestors(aggregates, row);
      StepAgrees(before, aggregates, rows, processed);
      processed := processed + 1;
    }
  }

  lemma {:induction false} SelectedRows(table: seq<Row>)
    ensures forall r :: r in Selected(table) <==> r in table && r.path != "/proc/kcore" && r.fileType in {1, 2}
  {
    if table != [] {
      SelectedRows(table[..|table| - 1]);
      assert table == table[..|table| - 1] + [table[|table| - 1]];
    }
  }

  lemma StepAgrees(before: map<string, DirNode>, after: map<string, DirNode>, rows: seq<Row>, n: nat)
    requires n < |rows| && Agrees(before, rows, n)
    requires forall d :: Get(after, d) == Folded(before, rows[n], Ancestors(Names(rows[n].path)), d)
    ensures Agrees(after, rows, n + 1)
  {
    assert rows[..n + 1][..n] == rows[..n];
    forall d: string ensures Get(after, d) == Total(rows[..n + 1], Below(rows, d)) {
      assert Get(before, d) == Total(rows[..n], Below(rows, d));
      assert rows[n] in Below(rows, d) <==> d in Ancestors(Names(rows[n].path));
    }
  }

  lemma StepUsersAgree(users: map<Owner, (I64, I64)>, rows: seq<Row>, n: nat)
    requires n < |rows| && UsersAgree(users, rows, n)
    ensures var charged := Charge(users, Uid(rows[n].uid), rows[n].size);
            UsersAgree(Charge(charged, Gid(rows[n].gid), rows[n].size), rows, n + 1)
  {
    var row := rows[n];
    var once := Charge(users, Uid(row.uid), row.size);
    var twice := Charge(once, Gid(row.gid), row.size);
    assert rows[..n + 1][..n] == rows[..n];
    forall o: Owner ensures Get(twice, o) == Usage(Total(rows[..n + 1], OwnedBy(rows, o))) {
      assert Get(users, o) == Usage(Total(rows[..n], OwnedBy(rows, o)));
      assert row in OwnedBy(rows, o) <==> (o == Uid(row.uid) || o == Gid(row.gid));
    }
  }
}
