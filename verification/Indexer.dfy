/** The indexer: batched transactional upserts, the seen-set, and stale-entry cleanup
    limited to the scanned roots, over many runs on one shared index. */
module Indexer {
  import opened Text
  import opened Paths

  /** SHA-256 taken as injective: a digest is the bytes it was computed over. */
  datatype Digest = Digest(of: string)

  datatype Meta = Meta(
    size: int, fileType: int, permissions: string, uid: int, gid: int, atime: int, mtime: int, ctime: int)

  datatype Record = Record(
    path: string, pathRaw: Option<string>, pathHash: Digest, parentHash: Option<Digest>, meta: Meta, metadata: string)

  type Index = map<Digest, Record>

  /** The record the walker sends; `render` is the lossy UTF-8 rendering of a name. */
  function MakeRecord(render: string -> string, raw: string, meta: Meta): Record {
    var parentHash := match ParentPath(raw) case None => None case Some(p) => Some(Digest(p));
    var path := render(raw);
    Record(path, if path == raw then None else Some(raw), Digest(raw), parentHash, meta, "")
  }

  /** COALESCE(path_raw, path) */
  function RawPath(r: Record): string {
    if r.pathRaw.Some? then r.pathRaw.value else r.path
  }

  /** The columns an upsert never rewrites are functions of the hashed path. */
  ghost predicate FromWalk(render: string -> string, r: Record) {
    r.pathHash == Digest(RawPath(r)) && r.path == render(RawPath(r)) && r.metadata == ""
  }

  lemma MadeRecordsAreFromWalk(render: string -> string, raw: string, meta: Meta)
    ensures RawPath(MakeRecord(render, raw, meta)) == raw && FromWalk(render, MakeRecord(render, raw, meta))
  {
  }

  /** The record of a canonical path hashes its parent directory; only `/` has none. */
  lemma MadeRecordsKnowTheirParent(render: string -> string, cs: seq<string>, meta: Meta)
    requires AreNames(cs)
    ensures var r := MakeRecord(render, Render(cs), meta);
            r.meta == meta &&
            r.parentHash == if cs == [] then None else Some(Digest(Render(cs[..|cs| - 1])))
  {
    ParentOfCanonical(cs);
  }

  ghost predicate AllFromWalk(render: string -> string, records: seq<Record>) {
    forall r | r in records :: FromWalk(render, r)
  }

  ghost predicate IndexOk(render: string -> string, index: Index) {
    forall h | h in index :: FromWalk(render, index[h]) && index[h].pathHash == h
  }

  function Hashes(records: seq<Record>): seq<Digest> {
    seq(|records|, i requires 0 <= i < |records| => records[i].pathHash)
  }

  ghost predicate DistinctRecords(records: seq<Record>) {
    forall i, j | 0 <= i < j < |records| :: records[i].pathHash != records[j].pathHash
  }

  // ----- one batch ---------------------------------------------------------------------

  /** INSERT … ON CONFLICT DO UPDATE … WHERE … IS DISTINCT FROM …: `path` and `metadata`
      are never rewritten, and an unchanged row is not written at all. */
  function UpsertOne(index: Index, r: Record): Index {
    if r.pathHash !in index then index[r.pathHash := r]
    else
      var row := index[r.pathHash];
      if row.meta == r.meta && row.parentHash == r.parentHash && row.pathRaw == r.pathRaw then index
      else index[r.pathHash := row.(meta := r.meta, parentHash := r.parentHash, pathRaw := r.pathRaw)]
  }

  /** What a set-based upsert of `records` may do: every sent path ends up with one of the
      records sent for it, everything else is left alone. */
  ghost predicate Upserted(before: Index, records: seq<Record>, after: Index) {
    && (forall h :: h in after <==> h in before || h in Hashes(records))
    && (forall h | h in after && h in Hashes(records) :: after[h] in records && after[h].pathHash == h)
    && (forall h | h in after && h !in Hashes(records) :: after[h] == before[h])
  }

  lemma UpsertedTwice(a: Index, rs: seq<Record>, b: Index, ss: seq<Record>, c: Index)
    requires Upserted(a, rs, b) && Upserted(b, ss, c)
    ensures Upserted(a, rs + ss, c)
  {
    HashesAppend(rs, ss);
  }

  lemma HashesAppend(rs: seq<Record>, ss: seq<Record>)
    ensures Hashes(rs + ss) == Hashes(rs) + Hashes(ss)
  {
  }

  /** Record-by-record overwriting, the simple form the batches stand for. */
  function Overwrite(index: Index, records: seq<Record>): Index {
    if records == [] then index
    else
      var last := records[|records| - 1];
      Overwrite(index, records[..|records| - 1])[last.pathHash := last]
  }

  lemma {:induction false} OverwriteIsAnUpsert(index: Index, records: seq<Record>)
    ensures Upserted(index, records, Overwrite(index, records))
  {
    if records != [] {
      var init, last := records[..|records| - 1], records[|records| - 1];
      OverwriteIsAnUpsert(index, init);
      assert records == init + [last];
      assert Hashes(records) == Hashes(init) + [last.pathHash];
    }
  }

  lemma SentOnce(records: seq<Record>, r: Record, s: Record)
    requires DistinctRecords(records) && r in records && s in records && r.pathHash == s.pathHash
    ensures r == s
  {
  }

  /** With each path sent once, a batched load leaves exactly what overwriting record by
      record leaves, whatever the batch boundaries. */
  lemma BatchesRefineOverwrite(before: Index, records: seq<Record>, after: Index)
    requires DistinctRecords(records) && Upserted(before, records, after)
    ensures after == Overwrite(before, records)
  {
    var simple := Overwrite(before, records);
    OverwriteIsAnUpsert(before, records);
    forall h | h in after ensures simple[h] == after[h] {
      if h in Hashes(records) {
        SentOnce(records, simple[h], after[h]);
      }
    }
  }

  /** Two walker records of one path differ only in what the upsert rewrites. */
  lemma UpsertOneOverwrites(render: string -> string, index: Index, r: Record)
    requires IndexOk(render, index) && FromWalk(render, r)
    ensures UpsertOne(index, r) == index[r.pathHash := r] && IndexOk(render, UpsertOne(index, r))
  {
    if r.pathHash in index {
      var row := index[r.pathHash];
      assert RawPath(row) == RawPath(r) && row.path == r.path;
    }
  }

  // ----- stale-entry cleanup ---------------------------------------------------------------

  ghost predicate Absolute(p: string) {
    p != "" && p[0] == '/'
  }

  ghost predicate IndexAbsolute(index: Index) {
    forall h | h in index :: Absolute(RawPath(index[h]))
  }

  predicate CoveredBy(roots: seq<string>, p: string) {
    exists root | root in roots :: Covers(root, p)
  }

  /** The index without the entries that lie under a root and were not seen. */
  function Pruned(index: Index, seen: seq<Digest>, roots: seq<string>): Index {
    map h | h in index && !(h !in seen && CoveredBy(roots, RawPath(index[h]))) :: index[h]
  }

  /** substr(s, 1, n) */
  function Substr(s: string, n: nat): string {
    if n <= |s| then s[..n] else s
  }

  /** The SQL test against the (root, prefix) rows of scan_roots. */
  predicate InRootTable(scanRoots: seq<(string, string)>, raw: string) {
    exists r | r in scanRoots :: raw == r.0 || Substr(raw, |r.1|) == r.1
  }

  lemma RootTableCovers(roots: seq<string>, scanRoots: seq<(string, string)>)
    requires |scanRoots| == |roots|
    requires forall i | 0 <= i < |roots| :: scanRoots[i] == (roots[i], ScanRootPrefix(roots[i]))
    ensures forall raw :: InRootTable(scanRoots, raw) <==> CoveredBy(roots, raw)
  {
    forall raw ensures InRootTable(scanRoots, raw) <==> CoveredBy(roots, raw) {
      if InRootTable(scanRoots, raw) {
        var r :| r in scanRoots && (raw == r.0 || Substr(raw, |r.1|) == r.1);
        assert Covers(r.0, raw);
      }
      if CoveredBy(roots, raw) {
        var root :| root in roots && Covers(root, raw);
        var i :| 0 <= i < |roots| && roots[i] == root;
        assert scanRoots[i] in scanRoots;
      }
    }
  }

  /** Dropping the prefix test for a run rooted at `/` deletes the same rows. */
  lemma UnscopedDeleteIsScoped(index: Index, seen: seq<Digest>, roots: seq<string>)
    requires IndexAbsolute(index) && "/" in roots
    ensures Pruned(index, seen, roots) == map h | h in index && h in seen :: index[h]
  {
    forall h | h in index ensures CoveredBy(roots, RawPath(index[h])) {
      assert "/" <= RawPath(index[h]);
      assert Covers("/", RawPath(index[h]));
    }
  }

  // ----- whole runs ----------------------------------------------------------------------------

  /** Everything outside the program's control in one run. */
  datatype Faults = Faults(walkAborted: bool, batches: nat -> bool, identities: bool, cleanup: bool, indexes: bool)

  /** What a run did to the index: which records it committed, and whether it pruned. */
  datatype RunEffect = RunEffect(roots: seq<string>, committed: seq<Record>, pruned: bool)

  ghost predicate Loads(before: Index, run: RunEffect, loaded: Index) {
    Upserted(before, run.committed, loaded)
  }

  ghost predicate Transition(before: Index, run: RunEffect, after: Index) {
    exists loaded :: Loads(before, run, loaded) &&
      after == if run.pruned then Pruned(loaded, Hashes(run.committed), run.roots) else loaded
  }

  // ----- what a run will do, given what fails -----------------------------------------------

  /** A batch is full at `batchSize` records, and at one record when that is 0. */
  function Full(batchSize: nat): (full: nat)
    ensures full > 0
  {
    if batchSize == 0 then 1 else batchSize
  }

  /** How many inserts `n` records take: full batches, then the remainder. */
  function Inserts(n: nat, batchSize: nat): nat {
    if n == 0 then 0 else if n <= Full(batchSize) then 1 else 1 + Inserts(n - Full(batchSize), batchSize)
  }

  function Kept(batch: seq<Record>, failed: bool): seq<Record> {
    if failed then [] else batch
  }

  /** The batches that do not fail, in order; `k` counts the inserts before them. */
  function Committed(records: seq<Record>, batchSize: nat, fails: nat -> bool, k: nat): seq<Record>
    decreases |records|
  {
    var full := Full(batchSize);
    if records == [] then []
    else if |records| <= full then Kept(records, fails(k))
    else Kept(records[..full], fails(k)) + Committed(records[full..], batchSize, fails, k + 1)
  }

  ghost predicate FailsBelow(fails: nat -> bool, n: nat) {
    exists k :: 0 <= k < n && fails(k)
  }

  ghost predicate SomeBatchFails(n: nat, batchSize: nat, fails: nat -> bool) {
    FailsBelow(fails, Inserts(n, batchSize))
  }

  /** The whole of one run's input: what it scans, what the walk sends, what goes wrong. */
  datatype Attempt = Attempt(roots: seq<string>, records: seq<Record>, batchSize: nat, faults: Faults)

  ghost predicate InsertFails(a: Attempt) {
    SomeBatchFails(|a.records|, a.batchSize, a.faults.batches)
  }

  ghost predicate Prunes(a: Attempt) {
    !a.faults.walkAborted && !InsertFails(a) && !a.faults.identities && !a.faults.cleanup
  }

  ghost function EffectOf(a: Attempt): RunEffect {
    RunEffect(a.roots, Committed(a.records, a.batchSize, a.faults.batches, 0), Prunes(a))
  }

  lemma {:induction false} CommittedAreReceived(records: seq<Record>, batchSize: nat, fails: nat -> bool, k: nat)
    ensures forall r | r in Committed(records, batchSize, fails, k) :: r in records
    decreases |records|
  {
    if |records| > Full(batchSize) {
      CommittedAreReceived(records[Full(batchSize)..], batchSize, fails, k + 1);
    }
  }

  lemma {:induction false} NothingFailsAllCommitted(records: seq<Record>, batchSize: nat, fails: nat -> bool, k: nat)
    requires forall i | k <= i < k + Inserts(|records|, batchSize) :: !fails(i)
    ensures Committed(records, batchSize, fails, k) == records
    decreases |records|
  {
    var full := Full(batchSize);
    if |records| > full {
      NothingFailsAllCommitted(records[full..], batchSize, fails, k + 1);
      assert records[..full] + records[full..] == records;
    }
  }

  /** A run that prunes has committed every record it received. */
  lemma PrunesOnlyComplete(a: Attempt)
    requires Prunes(a)
    ensures EffectOf(a).committed == a.records
  {
    NothingFailsAllCommitted(a.records, a.batchSize, a.faults.batches, 0);
  }

  /** A run with a panicked walk or any failed batch never removes a key, and leaves every
      path it committed nothing for as it was. */
  lemma FailedRunKeepsKeys(a: Attempt, before: Index, after: Index)
    requires Transition(before, EffectOf(a), after)
    requires a.faults.walkAborted || InsertFails(a)
    ensures before.Keys <= after.Keys
    ensures forall h | h in after && h !in Hashes(EffectOf(a).committed) :: h in before && after[h] == before[h]
  {
    UnprunedKeepsKeys(before, EffectOf(a), after);
  }

  // ----- the program ---------------------------------------------------------------------------

  ghost predicate Within(some: seq<Record>, records: seq<Record>) {
    forall r | r in some :: r in records
  }

  lemma WithinFromWalk(render: string -> string, some: seq<Record>, records: seq<Record>)
    requires Within(some, records) && AllFromWalk(render, records)
    ensures AllFromWalk(render, some)
  {
  }

  /** Where the consumer stands: `n` records received, `k` inserts done, `batch` pending. */
  ghost predicate Progress(
    records: seq<Record>, batchSize: nat, fails: nat -> bool,
    n: nat, batch: seq<Record>, committed: seq<Record>, k: nat)
  {
    && n <= |records| && Within(batch, records)
    && committed + Committed(batch + records[n..], batchSize, fails, k) == Committed(records, batchSize, fails, 0)
    && k + Inserts(|batch| + |records| - n, batchSize) == Inserts(|records|, batchSize)
  }

  lemma NothingReceived(records: seq<Record>, batchSize: nat, fails: nat -> bool)
    ensures Progress(records, batchSize, fails, 0, [], [], 0)
  {
    assert [] + records[0..] == records;
  }

  lemma OneReceived(
    records: seq<Record>, batchSize: nat, fails: nat -> bool,
    n: nat, batch: seq<Record>, committed: seq<Record>, k: nat)
    requires Progress(records, batchSize, fails, n, batch, committed, k) && n < |records|
    ensures Progress(records, batchSize, fails, n + 1, batch + [records[n]], committed, k)
  {
    assert batch + [records[n]] + records[n + 1..] == batch + records[n..];
  }

  /** A full batch is one insert, and then the rest. */
  lemma FullBatch(
    records: seq<Record>, batchSize: nat, fails: nat -> bool,
    n: nat, batch: seq<Record>, committed: seq<Record>, k: nat)
    requires Progress(records, batchSize, fails, n, batch, committed, k) && |batch| == Full(batchSize)
    ensures Progress(records, batchSize, fails, n, [], if fails(k) then committed else committed + batch, k + 1)
  {
    var rest := records[n..];
    FirstBatch(batch, rest, batchSize, fails, k);
    Assoc(committed, Kept(batch, fails(k)), Committed(rest, batchSize, fails, k + 1));
    assert [] + rest == rest;
    assert committed + Kept(batch, fails(k)) == if fails(k) then committed else committed + batch;
  }

  lemma FirstBatch(batch: seq<Record>, rest: seq<Record>, batchSize: nat, fails: nat -> bool, k: nat)
    requires |batch| == Full(batchSize)
    ensures Committed(batch + rest, batchSize, fails, k) ==
            Kept(batch, fails(k)) + Committed(rest, batchSize, fails, k + 1)
  {
    if rest == [] {
      assert batch + rest == batch;
      assert Kept(batch, fails(k)) + [] == Kept(batch, fails(k));
    } else {
      assert (batch + rest)[..|batch|] == batch;
      assert (batch + rest)[|batch|..] == rest;
    }
  }

  lemma Assoc(a: seq<Record>, b: seq<Record>, c: seq<Record>)
    ensures a + (b + c) == (a + b) + c
  {
  }

  /** The remainder is one insert unless it is empty. */
  lemma LastBatch(
    records: seq<Record>, batchSize: nat, fails: nat -> bool,
    batch: seq<Record>, committed: seq<Record>, k: nat)
    requires Progress(records, batchSize, fails, |records|, batch, committed, k) && |batch| < Full(batchSize)
    ensures Committed(records, batchSize, fails, 0) ==
            if batch == [] || fails(k) then committed else committed + batch
    ensures Inserts(|records|, batchSize) == if batch == [] then k else k + 1
  {
    assert batch + records[|records|..] == batch;
  }

  lemma FailsBelowNext(fails: nat -> bool, k: nat)
    ensures FailsBelow(fails, k + 1) <==> FailsBelow(fails, k) || fails(k)
  {
  }

  lemma LoadedIsAbsolute(a: Attempt, before: Index, loaded: Index)
    requires Upserted(before, EffectOf(a).committed, loaded) && IndexAbsolute(before)
    requires forall r | r in a.records :: Absolute(RawPath(r))
    ensures IndexAbsolute(loaded)
  {
    CommittedAreReceived(a.records, a.batchSize, a.faults.batches, 0);
  }

  lemma PrunedKeeps(render: string -> string, index: Index, seen: seq<Digest>, roots: seq<string>)
    requires IndexOk(render, index) && IndexAbsolute(index)
    ensures IndexOk(render, Pruned(index, seen, roots)) && IndexAbsolute(Pruned(index, seen, roots))
  {
  }

  /** What one run leaves behind and reports. */
  ghost predicate Outcome(a: Attempt, before: Index, after: Index, ok: bool) {
    && Transition(before, EffectOf(a), after)
    && (ok <==> Prunes(a) && !a.faults.indexes)
    && (a.faults.walkAborted || InsertFails(a) ==> before.Keys <= after.Keys)
    && (ok && AllCovered(a) ==> Successful(EffectOf(a)))
  }

  ghost predicate AllCovered(a: Attempt) {
    forall r | r in a.records :: CoveredBy(a.roots, RawPath(r))
  }

  lemma IncompleteOutcome(a: Attempt, before: Index, loaded: Index)
    requires Upserted(before, EffectOf(a).committed, loaded) && !Prunes(a)
    ensures Outcome(a, before, loaded, false)
  {
    assert Loads(before, EffectOf(a), loaded);
  }

  lemma PrunedOutcome(render: string -> string, a: Attempt, before: Index, loaded: Index)
    requires Upserted(before, EffectOf(a).committed, loaded) && Prunes(a) && AllFromWalk(render, a.records)
    ensures Outcome(a, before, Pruned(loaded, Hashes(EffectOf(a).committed), a.roots), !a.faults.indexes)
  {
    assert Loads(before, EffectOf(a), loaded);
    PrunesOnlyComplete(a);
  }

  class Database {
    var index: Index
    var staging: seq<Record>
    var seenHashes: seq<Digest>

    constructor ()
      ensures index == map[] && staging == [] && seenHashes == []
    {
      index, staging, seenHashes := map[], [], [];
    }

    /** INSERT … SELECT DISTINCT ON (path_hash) …: one arbitrary staged row per hash. */
    method UpsertDistinct(ghost render: string -> string, staged: seq<Record>) returns (after: Index)
      requires IndexOk(render, index) && AllFromWalk(render, staged)
      ensures Upserted(index, staged, after) && IndexOk(render, after)
    {
      after := index;
      var todo := set h | h in Hashes(staged);
      ghost var done: set<Digest> := {};
      while todo != {}
        invariant todo !! done && (forall h :: h in Hashes(staged) <==> h in todo || h in done)
        invariant IndexOk(render, after)
        invariant forall h :: h in after <==> h in index || h in done
        invariant forall h | h in done :: after[h] in staged && after[h].pathHash == h
        invariant forall h | h in after && h !in done :: after[h] == index[h]
        decreases todo
      {
        var h :| h in todo;
        assert h in Hashes(staged);
        var r :| r in staged && r.pathHash == h;
        UpsertOneOverwrites(render, after, r);
        after := UpsertOne(after, r);
        todo, done := todo - {h}, done + {h};
      }
    }

    /** One transaction: COPY into staging, record the hashes, upsert, truncate, commit.
        `fails` says whether any statement of it errors, which rolls it back. */
    method InsertBatch(ghost render: string -> string, batch: seq<Record>, fails: bool) returns (ok: bool)
      requires staging == [] && IndexOk(render, index) && AllFromWalk(render, batch)
      modifies this
      ensures staging == [] && IndexOk(render, index)
      ensures ok == !fails
      ensures ok ==> Upserted(old(index), batch, index) && seenHashes == old(seenHashes) + Hashes(batch)
      ensures !ok ==> index == old(index) && seenHashes == old(seenHashes)
    {
      var staged := staging + batch;
      assert staged == batch;
      var seenNow := seenHashes + Hashes(staged);
      var indexNow := UpsertDistinct(render, staged);
      ok := !fails;
      if ok {
        index, seenHashes, staging := indexNow, seenNow, [];
      }
    }

    /** The index is `before` plus the committed records, and the seen-set their hashes. */
    ghost predicate Reflects(before: Index, seenBefore: seq<Digest>, committed: seq<Record>)
      reads this
    {
      staging == [] && seenHashes == seenBefore + Hashes(committed) && Upserted(before, committed, index)
    }

    /** The insert with number `inserts`, and the flag that remembers a failed one. */
    method CommitOrDrop(
      ghost render: string -> string, batch: seq<Record>, fails: nat -> bool, inserts: nat, insertFailed: bool,
      ghost before: Index, ghost seenBefore: seq<Digest>, ghost committed: seq<Record>)
      returns (failedNow: bool, ghost committedNow: seq<Record>)
      requires IndexOk(render, index) && AllFromWalk(render, batch)
      requires Reflects(before, seenBefore, committed)
      requires insertFailed <==> FailsBelow(fails, inserts)
      modifies this
      ensures IndexOk(render, index)
      ensures Reflects(before, seenBefore, committedNow)
      ensures failedNow <==> FailsBelow(fails, inserts + 1)
      ensures committedNow == if fails(inserts) then committed else committed + batch
    {
      ghost var loaded := index;
      var ok := InsertBatch(render, batch, fails(inserts));
      failedNow, committedNow := insertFailed || !ok, if ok then committed + batch else committed;
      FailsBelowNext(fails, inserts);
      if ok {
        UpsertedTwice(before, committed, loaded, batch, index);
        HashesAppend(committed, batch);
      }
    }

    /** The consumer: batches of `batchSize` records, the remainder at the end. The k-th
        insert fails iff `fails(k)`. */
    method ConsumeRecords(ghost render: string -> string, records: seq<Record>, batchSize: nat, fails: nat -> bool)
      returns (totalProcessed: nat, insertFailed: bool)
      requires staging == [] && IndexOk(render, index) && AllFromWalk(render, records)
      modifies this
      ensures IndexOk(render, index)
      ensures Reflects(old(index), old(seenHashes), Committed(records, batchSize, fails, 0))
      ensures totalProcessed == |records|
      ensures insertFailed <==> SomeBatchFails(|records|, batchSize, fails)
    {
      var batch: seq<Record> := [];
      totalProcessed, insertFailed := 0, false;
      ghost var committed: seq<Record> := [];
      var inserts := 0;
      NothingReceived(records, batchSize, fails);
      while totalProcessed < |records|
        invariant IndexOk(render, index)
        invariant Reflects(old(index), old(seenHashes), committed)
        invariant Progress(records, batchSize, fails, totalProcessed, batch, committed, inserts)
        invariant |batch| < Full(batchSize)
        invariant insertFailed <==> FailsBelow(fails, inserts)
        decreases |records| - totalProcessed
      {
        OneReceived(records, batchSize, fails, totalProcessed, batch, committed, inserts);
        batch := batch + [records[totalProcessed]];
        totalProcessed := totalProcessed + 1;
        if |batch| >= batchSize {
          WithinFromWalk(render, batch, records);
          FullBatch(records, batchSize, fails, totalProcessed, batch, committed, inserts);
          insertFailed, committed :=
            CommitOrDrop(render, batch, fails, inserts, insertFailed, old(index), old(seenHashes), committed);
          inserts := inserts + 1;
          batch := [];
        }
      }
      LastBatch(records, batchSize, fails, batch, committed, inserts);
      if batch != [] {
        WithinFromWalk(render, batch, records);
        insertFailed, committed :=
          CommitOrDrop(render, batch, fails, inserts, insertFailed, old(index), old(seenHashes), committed);
      }
    }

    /** DELETE … WHERE unseen, limited to the scan roots unless `/` is one of them. */
    method CleanupStaleEntries(roots: seq<string>)
      requires IndexAbsolute(index)
      modifies this
      ensures index == Pruned(old(index), seenHashes, roots)
      ensures staging == old(staging) && seenHashes == old(seenHashes)
    {
      if "/" in roots {
        UnscopedDeleteIsScoped(index, seenHashes, roots);
        index := map h | h in index && h in seenHashes :: index[h];
      } else {
        var scanRoots := seq(|roots|, i requires 0 <= i < |roots| => (roots[i], ScanRootPrefix(roots[i])));
        RootTableCovers(roots, scanRoots);
        index := map h | h in index && !(h !in seenHashes && InRootTable(scanRoots, RawPath(index[h]))) :: index[h];
      }
    }

    /** One indexer run from the creation of its temporary tables on: what it commits and
        whether it prunes is determined by what fails. */
    method Run(ghost render: string -> string, roots: seq<string>, records: seq<Record>, batchSize: nat, faults: Faults)
      returns (ok: bool)
      requires IndexOk(render, index) && IndexAbsolute(index)
      requires AllFromWalk(render, records) && forall r | r in records :: Absolute(RawPath(r))
      modifies this
      ensures IndexOk(render, index) && IndexAbsolute(index)
      ensures Outcome(Attempt(roots, records, batchSize, faults), old(index), index, ok)
    {
      ghost var attempt := Attempt(roots, records, batchSize, faults);
      ghost var before := index;
      staging, seenHashes := [], [];
      var totalProcessed, insertFailed := ConsumeRecords(render, records, batchSize, faults.batches);
      LoadedIsAbsolute(attempt, before, index);
      ok := false;
      if faults.walkAborted || insertFailed || faults.identities || faults.cleanup {
        IncompleteOutcome(attempt, before, index);
        return;
      }
      PrunedKeeps(render, index, seenHashes, roots);
      PrunedOutcome(render, attempt, before, index);
      CleanupStaleEntries(roots);
      ok := !faults.indexes;
    }
  }

  // ----- any number of runs ------------------------------------------------------------------

  /** The run says something about `p`: it committed a record for it, or pruned where it lies. */
  ghost predicate Decides(run: RunEffect, p: string) {
    Digest(p) in Hashes(run.committed) || (run.pruned && CoveredBy(run.roots, p))
  }

  ghost predicate History(states: seq<Index>, runs: seq<RunEffect>) {
    && |states| == |runs| + 1
    && forall i | 0 <= i < |runs| :: Transition(states[i], runs[i], states[i + 1])
  }

  /** A key stands for its own path in every index the indexer writes. */
  ghost predicate KeyedByPath(index: Index) {
    forall h | h in index :: RawPath(index[h]) == h.of && index[h].pathHash == h
  }

  ghost predicate RecordsKeyed(records: seq<Record>) {
    forall r | r in records :: r.pathHash == Digest(RawPath(r))
  }

  lemma TransitionKeyed(before: Index, run: RunEffect, after: Index)
    requires KeyedByPath(before) && RecordsKeyed(run.committed) && Transition(before, run, after)
    ensures KeyedByPath(after)
  {
  }

  /** One run: what it decided about `p` holds, what it did not is as before. */
  lemma TransitionDecides(before: Index, run: RunEffect, after: Index, p: string)
    requires KeyedByPath(before) && RecordsKeyed(run.committed) && Transition(before, run, after)
    ensures if Decides(run, p) then EntryFrom(after, run, p) else SameEntry(after, before, p)
  {
    var h := Digest(p);
    var loaded :| Loads(before, run, loaded) &&
      after == if run.pruned then Pruned(loaded, Hashes(run.committed), run.roots) else loaded;
    if h in loaded {
      assert RawPath(loaded[h]) == p;
    }
  }

  /** A run that did not prune never removes a key. */
  lemma UnprunedKeepsKeys(before: Index, run: RunEffect, after: Index)
    requires Transition(before, run, after) && !run.pruned
    ensures before.Keys <= after.Keys
  {
  }

  ghost function LastDecider(runs: seq<RunEffect>, p: string): (k: int)
    ensures -1 <= k < |runs|
    ensures k >= 0 ==> Decides(runs[k], p)
    ensures forall j | k < j < |runs| :: !Decides(runs[j], p)
  {
    if runs == [] then -1
    else if Decides(runs[|runs| - 1], p) then |runs| - 1
    else LastDecider(runs[..|runs| - 1], p)
  }

  ghost predicate SameEntry(a: Index, b: Index, p: string) {
    && (Digest(p) in a <==> Digest(p) in b)
    && (Digest(p) in a ==> a[Digest(p)] == b[Digest(p)])
  }

  /** `p` is indexed exactly when the run committed a record for it, with that record. */
  ghost predicate EntryFrom(index: Index, run: RunEffect, p: string) {
    && (Digest(p) in index <==> Digest(p) in Hashes(run.committed))
    && (Digest(p) in index ==> index[Digest(p)] in run.committed && index[Digest(p)].pathHash == Digest(p))
  }

  /** After any runs with any root sets, the last run that decided about a path is the one
      that counts; without one the path is as it was at the start. */
  lemma {:induction false} LastDecidingRunWins(states: seq<Index>, runs: seq<RunEffect>, p: string)
    requires History(states, runs) && KeyedByPath(states[0])
    requires forall i | 0 <= i < |runs| :: RecordsKeyed(runs[i].committed)
    ensures KeyedByPath(states[|runs|])
    ensures var k := LastDecider(runs, p);
            if k < 0 then SameEntry(states[|runs|], states[0], p) else EntryFrom(states[|runs|], runs[k], p)
  {
    if runs != [] {
      var n := |runs| - 1;
      var states', runs' := states[..n + 1], runs[..n];
      assert History(states', runs');
      LastDecidingRunWins(states', runs', p);
      TransitionKeyed(states[n], runs[n], states[n + 1]);
      TransitionDecides(states[n], runs[n], states[n + 1], p);
    }
  }

  ghost predicate Successful(run: RunEffect) {
    && run.pruned
    && RecordsKeyed(run.committed)
    && (forall r | r in run.committed :: CoveredBy(run.roots, RawPath(r)))
  }

  /** Every record lies under a root and is keyed by its own path, as the walk sends them. */
  ghost predicate WalkedFromRoots(a: Attempt) {
    RecordsKeyed(a.records) && AllCovered(a)
  }

  /** A run over what its roots hold is successful exactly when the walk finished and no
      insert, identity refresh or cleanup failed. */
  lemma CleanRunIsSuccessful(a: Attempt)
    requires WalkedFromRoots(a)
    ensures Successful(EffectOf(a)) <==>
            !a.faults.walkAborted && !InsertFails(a) && !a.faults.identities && !a.faults.cleanup
  {
    if Prunes(a) {
      PrunesOnlyComplete(a);
    }
  }

  lemma CoversWhatItSends(run: RunEffect, p: string)
    requires Successful(run)
    ensures Decides(run, p) <==> CoveredBy(run.roots, p)
  {
    if Digest(p) in Hashes(run.committed) {
      var i :| 0 <= i < |run.committed| && Hashes(run.committed)[i] == Digest(p);
      assert run.committed[i] in run.committed;
    }
  }

  lemma CoveringDecides(runs: seq<RunEffect>, p: string)
    requires forall i | 0 <= i < |runs| :: Successful(runs[i])
    ensures forall i | 0 <= i < |runs| :: Decides(runs[i], p) <==> CoveredBy(runs[i].roots, p)
  {
    forall i | 0 <= i < |runs|
      ensures Decides(runs[i], p) <==> CoveredBy(runs[i].roots, p)
    {
      CoversWhatItSends(runs[i], p);
    }
  }

  /** No run from `k` on covers `p`. */
  ghost predicate UncoveredFrom(runs: seq<RunEffect>, k: nat, p: string) {
    forall i | k <= i < |runs| :: !CoveredBy(runs[i].roots, p)
  }

  /** Successful runs only: a path no run covers is as it was at the start. */
  lemma UncoveredIsUntouched(states: seq<Index>, runs: seq<RunEffect>, p: string)
    requires History(states, runs) && KeyedByPath(states[0])
    requires forall i | 0 <= i < |runs| :: Successful(runs[i])
    requires UncoveredFrom(runs, 0, p)
    ensures SameEntry(states[|runs|], states[0], p)
  {
    LastDecidingRunWins(states, runs, p);
    CoveringDecides(runs, p);
  }

  /** Successful runs only: a path is indexed iff the last run whose roots cover it sent a
      record for it, with that record. */
  lemma LastCoveringRunWins(states: seq<Index>, runs: seq<RunEffect>, p: string, k: nat)
    requires History(states, runs) && KeyedByPath(states[0])
    requires forall i | 0 <= i < |runs| :: Successful(runs[i])
    requires k < |runs| && CoveredBy(runs[k].roots, p) && UncoveredFrom(runs, k + 1, p)
    ensures EntryFrom(states[|runs|], runs[k], p)
  {
    LastDecidingRunWins(states, runs, p);
    CoveringDecides(runs, p);
    var last := LastDecider(runs, p);
    assert last == k;
  }

  // ----- any number of attempts ----------------------------------------------------------------

  ghost function Effects(attempts: seq<Attempt>): (runs: seq<RunEffect>)
    ensures |runs| == |attempts|
    ensures forall i | 0 <= i < |attempts| :: runs[i] == EffectOf(attempts[i])
  {
    seq(|attempts|, i requires 0 <= i < |attempts| => EffectOf(attempts[i]))
  }

  /** Over any history of clean runs on one index, the last run that covers a path says
      whether it is indexed, and with which of the records its walk sent. */
  lemma CleanRunsDetermineTheIndex(states: seq<Index>, attempts: seq<Attempt>, p: string, k: nat)
    requires History(states, Effects(attempts)) && KeyedByPath(states[0])
    requires forall i | 0 <= i < |attempts| :: WalkedFromRoots(attempts[i]) && Prunes(attempts[i])
    requires k < |attempts| && CoveredBy(attempts[k].roots, p) && UncoveredFrom(Effects(attempts), k + 1, p)
    ensures Digest(p) in states[|attempts|] <==> Digest(p) in Hashes(attempts[k].records)
    ensures Digest(p) in states[|attempts|] ==>
              states[|attempts|][Digest(p)] in attempts[k].records
  {
    var runs := Effects(attempts);
    forall i | 0 <= i < |runs|
      ensures Successful(runs[i])
    {
      CleanRunIsSuccessful(attempts[i]);
    }
    LastCoveringRunWins(states, runs, p, k);
    PrunesOnlyComplete(attempts[k]);
  }
}
