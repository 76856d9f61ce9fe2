/** The per-address login limiter: ten failures lock an address out for fifteen minutes. */
module LoginLimiter {
  import opened Text

  const LOGIN_MAX_ATTEMPTS: nat := 10
  const LOGIN_LOCK_DURATION: int := 15 * 60

  /** `lockedUntil` is None for the zero time, which every instant is after. */
  datatype IpRecord = IpRecord(failures: nat, lockedUntil: Option<int>)

  /** Whether an address with these failures since its last success, in order of counting,
      may try again: the last full ten of them decide. */
  predicate MayTry(failed: seq<int>, now: int) {
    |failed| < 10 || now > failed[|failed| / 10 * 10 - 1] + 15 * 60
  }

  /** A record that stands for these failures. */
  ghost predicate Records(rec: IpRecord, failed: seq<int>) {
    && rec.failures == |failed| % 10
    && (|failed| < 10 ==> rec.lockedUntil == None)
    && (|failed| >= 10 ==> rec.lockedUntil == Some(failed[|failed| / 10 * 10 - 1] + 15 * 60))
  }

  /** One more failure starts a new ten or goes on with the old one. */
  lemma OneMore(failed: seq<int>, now: int)
    ensures var more := failed + [now];
            if |failed| % 10 == 9 then |more| % 10 == 0 && more[|more| / 10 * 10 - 1] == now
            else
              && |more| % 10 == |failed| % 10 + 1 && |more| / 10 == |failed| / 10
              && (|failed| >= 10 ==> more[|more| / 10 * 10 - 1] == failed[|failed| / 10 * 10 - 1])
  {
    if |failed| % 10 == 9 {
      assert |failed| + 1 == 10 * (|failed| / 10 + 1);
    } else {
      assert |failed| + 1 == 10 * (|failed| / 10) + (|failed| % 10 + 1);
    }
  }

  /** `failed` remembers what the records stand for: the failures of each address since its
      last success. */
  class Limiter {
    var records: map<string, IpRecord>
    ghost var failed: map<string, seq<int>>

    constructor ()
      ensures Valid() && failed == map[]
    {
      records := map[];
      failed := map[];
    }

    ghost predicate Valid()
      reads this
    {
      && records.Keys == failed.Keys
      && forall ip | ip in records :: Records(records[ip], failed[ip])
    }

    ghost function Failures(ip: string): seq<int>
      reads this
    {
      if ip in failed then failed[ip] else []
    }

    method LoginAllowed(ip: string, now: int) returns (ok: bool)
      requires Valid()
      ensures ok <==> MayTry(Failures(ip), now)
    {
      if ip !in records { return true; }
      var rec := records[ip];
      ok := rec.lockedUntil.None? || now > rec.lockedUntil.value;
    }

    method LoginFailed(ip: string, now: int)
      requires Valid()
      modifies this
      ensures Valid() && failed == old(failed)[ip := old(Failures(ip)) + [now]]
    {
      OneMore(Failures(ip), now);
      failed := failed[ip := Failures(ip) + [now]];
      var rec := if ip in records then records[ip] else IpRecord(0, None);
      rec := rec.(failures := rec.failures + 1);
      if rec.failures >= LOGIN_MAX_ATTEMPTS {
        rec := rec.(lockedUntil := Some(now + LOGIN_LOCK_DURATION));
        rec := rec.(failures := 0);
      }
      records := records[ip := rec];
    }

    method LoginSucceeded(ip: string)
      requires Valid()
      modifies this
      ensures Valid() && failed == old(failed) - {ip}
    {
      failed := failed - {ip};
      records := records - {ip};
    }
  }

  // ----- a run of failures from one address ----------------------------------------------------

  /** An admitted attempt that failed: when it was let in and when it was counted. */
  datatype Failure = Failure(checkedAt: int, failedAt: int)

  function Times(fs: seq<Failure>): seq<int> {
    seq(|fs|, i requires 0 <= i < |fs| => fs[i].failedAt)
  }

  /** One at a time, in order of time, each let in on the failures before it. */
  ghost predicate Admitted(fs: seq<Failure>) {
    && (forall i | 0 <= i < |fs| :: fs[i].checkedAt <= fs[i].failedAt)
    && (forall i | 0 < i < |fs| :: fs[i - 1].failedAt <= fs[i].checkedAt)
    && (forall i | 0 <= i < |fs| :: MayTry(Times(fs[..i]), fs[i].checkedAt))
  }

  lemma {:induction false} TimesOrdered(fs: seq<Failure>, i: nat, j: nat)
    requires Admitted(fs) && i <= j < |fs|
    ensures fs[i].failedAt <= fs[j].failedAt
    decreases j
  {
    if i < j { TimesOrdered(fs, i, j - 1); }
  }

  /** Every tenth failure shuts the address out for fifteen minutes. */
  lemma LockSeparates(fs: seq<Failure>, m: nat)
    requires Admitted(fs) && m + 1 < |fs| && (m + 1) % 10 == 0
    ensures fs[m + 1].failedAt - fs[m].failedAt > 15 * 60
  {
    var before := Times(fs[..m + 1]);
    assert MayTry(before, fs[m + 1].checkedAt);
    assert |before| / 10 * 10 - 1 == m && before[m] == fs[m].failedAt;
  }

  /** Of ten failures in a row one is a tenth. */
  lemma NextLock(i: nat) returns (m: nat)
    ensures i <= m < i + 10 && (m + 1) % 10 == 0
  {
    m := i + (9 - i % 10);
  }

  /** Any closed window of fifteen minutes holds at most ten admitted failures. */
  lemma AtMostTenPerWindow(fs: seq<Failure>, i: nat, j: nat)
    requires Admitted(fs) && i <= j < |fs| && fs[j].failedAt - fs[i].failedAt <= 15 * 60
    ensures j - i + 1 <= 10
  {
    if j - i >= 10 {
      var m := NextLock(i);
      LockSeparates(fs, m);
      TimesOrdered(fs, i, m);
      TimesOrdered(fs, m + 1, j);
      assert false;
    }
  }

  lemma LastTenth(n: nat, m: nat)
    requires m < n && (m + 1) % 10 == 0
    ensures n >= 10 && m <= n / 10 * 10 - 1
  {
    assert m + 1 == (m + 1) / 10 * 10;
  }

  lemma TenthIsTenth(n: nat)
    requires n >= 10
    ensures 0 <= n / 10 * 10 - 1 < n && (n / 10 * 10 - 1 + 1) % 10 == 0
  {
  }

  /** A tenth failure no more than fifteen minutes ago. */
  ghost predicate LockedBy(fs: seq<Failure>, m: int, now: int) {
    0 <= m < |fs| && (m + 1) % 10 == 0 && now - fs[m].failedAt <= 15 * 60
  }

  /** An admitted run of failures locks the address out for the fifteen minutes after each
      tenth, and at no other time. */
  lemma RefusedOnlyWhileLocked(fs: seq<Failure>, now: int)
    requires Admitted(fs)
    ensures !MayTry(Times(fs), now) <==> exists m :: LockedBy(fs, m, now)
  {
    var n := |fs|;
    if n >= 10 {
      TenthIsTenth(n);
      var last := n / 10 * 10 - 1;
      assert Times(fs)[last] == fs[last].failedAt;
      assert !MayTry(Times(fs), now) <==> LockedBy(fs, last, now);
    }
    if m :| LockedBy(fs, m, now) {
      LastTenth(n, m);
      TimesOrdered(fs, m, n / 10 * 10 - 1);
    }
  }
}
