/** One OIDC session under any interleaving of requests, logouts and clean-ups: each SQL
    statement and each exchange with the identity provider is one atomic step. */
module Sessions {
  import opened Text

  type Token = nat

  type RequestId = nat

  datatype SessionRow = SessionRow(refresh: Option<Token>, checkedAt: int, expiresAt: int)

  /** How far a request has come. `claimedAt` is when it won the re-check. */
  datatype Request =
    | Loaded
    | Refreshing(token: Token, claimedAt: int)
    | Storing(next: Token, claimedAt: int)
    | Revoking(claimedAt: int)
    | Accepted(decidedAt: int, acceptedAt: int)
    | Rejected
  {
    /** Between winning the re-check and leaving the session row alone again. */
    predicate Pending() {
      Refreshing? || Storing? || Revoking?
    }
  }

  /** `stamps` lists the issue and every claim, `minted` every refresh token the provider
      has given out, `spent` the tokens presented to it. */
  datatype State = State(
    now: int, interval: int, issued: bool, row: Option<SessionRow>, requests: map<RequestId, Request>,
    stamps: seq<int>, minted: set<Token>, spent: seq<Token>)

  /** What the identity provider says to a presented refresh token. `Refreshed(None)` is a
      provider that does not rotate; `Refused` is every reason to revoke. */
  datatype Verdict = Refused | Refreshed(rotated: Option<Token>)

  datatype Event =
    | Tick(elapsed: nat)
    | Issue(refresh: Option<Token>)
    | Load(id: RequestId)
    | Claim(id: RequestId)
    | Ask(id: RequestId, verdict: Verdict)
    | Store(id: RequestId, fails: bool)
    | Revoke(id: RequestId, fails: bool)
    | Logout
    | CleanUp

  const SESSION_LIFETIME: int := 24 * 60 * 60

  predicate Init(s: State) {
    && s.interval > 0 && !s.issued && s.row == None && s.requests == map[]
    && s.stamps == [] && s.minted == {} && s.spent == []
  }

  predicate Enabled(s: State, e: Event) {
    match e
    case Issue(refresh) => !s.issued && (refresh.Some? ==> refresh.value !in s.minted)
    case Load(id) => id !in s.requests
    case Claim(id) => id in s.requests && s.requests[id].Loaded?
    case Ask(id, verdict) =>
      && id in s.requests && s.requests[id].Refreshing?
      && (verdict.Refreshed? && verdict.rotated.Some? ==> verdict.rotated.value !in s.minted)
    case Store(id, _) => id in s.requests && s.requests[id].Storing?
    case Revoke(id, _) => id in s.requests && s.requests[id].Revoking?
    case _ => true
  }

  /** The guard of the claiming UPDATE. */
  predicate Due(s: State) {
    s.row.Some? && s.row.value.checkedAt < s.now - s.interval
  }

  function Advance(s: State, id: RequestId, r: Request): State {
    s.(requests := s.requests[id := r])
  }

  function Step(s: State, e: Event): State
    requires Enabled(s, e)
  {
    match e
    case Tick(elapsed) => s.(now := s.now + elapsed)
    case Issue(refresh) =>
      // without a refresh token the session ends after one interval
      var lifetime := if refresh.None? then s.interval else SESSION_LIFETIME;
      s.(issued := true, row := Some(SessionRow(refresh, s.now, s.now + lifetime)), stamps := [s.now],
         minted := s.minted + if refresh.Some? then {refresh.value} else {})
    case Load(id) =>
      Advance(s, id, if s.row.Some? && s.row.value.expiresAt > s.now then Loaded else Rejected)
    case Claim(id) =>
      if !Due(s) then Advance(s, id, Accepted(s.now, s.now))
      else
        var row := s.row.value;
        var claimed := s.(row := Some(row.(checkedAt := s.now)), stamps := s.stamps + [s.now]);
        Advance(claimed, id,
          if row.refresh.None? then Accepted(s.now, s.now) else Refreshing(row.refresh.value, s.now))
    case Ask(id, verdict) =>
      var r := s.requests[id];
      var asked := s.(spent := s.spent + [r.token]);
      (match verdict
       case Refused => Advance(asked, id, Revoking(r.claimedAt))
       case Refreshed(None) => Advance(asked, id, Storing(r.token, r.claimedAt))
       case Refreshed(Some(t)) => Advance(asked.(minted := s.minted + {t}), id, Storing(t, r.claimedAt)))
    case Store(id, fails) =>
      var r := s.requests[id];
      // UPDATE … WHERE id_hash = …: no row, no effect
      var stored := if fails || s.row.None? then s else s.(row := Some(s.row.value.(refresh := Some(r.next))));
      Advance(stored, id, Accepted(r.claimedAt, s.now))
    case Revoke(id, fails) =>
      Advance(if fails then s else s.(row := None), id, Rejected)
    case Logout => s.(row := None)
    case CleanUp => if s.row.Some? && s.row.value.expiresAt < s.now then s.(row := None) else s
  }

  ghost predicate Execution(ss: seq<State>, es: seq<Event>) {
    && |ss| == |es| + 1
    && Init(ss[0])
    && forall i | 0 <= i < |es| :: Enabled(ss[i], es[i]) && ss[i + 1] == Step(ss[i], es[i])
  }

  // ----- claims are more than one interval apart ------------------------------------------------

  predicate Spaced(stamps: seq<int>, interval: int) {
    forall i | 0 < i < |stamps| :: stamps[i] - stamps[i - 1] > interval
  }

  ghost predicate Inv(s: State) {
    && s.interval > 0
    && Spaced(s.stamps, s.interval)
    && (!s.issued ==> s.row.None? && s.stamps == [] && forall id | id in s.requests :: s.requests[id].Rejected?)
    && (s.issued ==> s.stamps != [] && s.stamps[|s.stamps| - 1] <= s.now)
    && (s.row.Some? ==> s.row.value.checkedAt == s.stamps[|s.stamps| - 1])
  }

  lemma SpacedSnoc(stamps: seq<int>, interval: int, t: int)
    requires Spaced(stamps, interval) && (stamps != [] ==> t - stamps[|stamps| - 1] > interval)
    ensures Spaced(stamps + [t], interval)
  {
  }

  lemma StepKeepsInv(s: State, e: Event)
    requires Inv(s) && Enabled(s, e)
    ensures Inv(Step(s, e))
  {
    if e.Claim? && Due(s) {
      SpacedSnoc(s.stamps, s.interval, s.now);
    }
  }

  lemma {:induction false} InvHolds(ss: seq<State>, es: seq<Event>, k: nat)
    requires Execution(ss, es) && k < |ss|
    ensures Inv(ss[k]) && ss[k].interval == ss[0].interval
  {
    if k > 0 {
      InvHolds(ss, es, k - 1);
      StepKeepsInv(ss[k - 1], es[k - 1]);
    }
  }

  /** In every interleaving the issue and the claims are more than one interval apart. */
  lemma ClaimsAreSpaced(ss: seq<State>, es: seq<Event>, k: nat)
    requires Execution(ss, es) && k < |ss|
    ensures Spaced(ss[k].stamps, ss[0].interval)
  {
    InvHolds(ss, es, k);
  }

  // ----- how long a session lasts -----------------------------------------------------------------

  /** A day with a refresh token, one interval of the re-check without. */
  function Lifetime(issue: Event, interval: int): int
    requires issue.Issue?
  {
    if issue.refresh.Some? then 24 * 60 * 60 else interval
  }

  /** Step `i` issues the session. */
  ghost predicate IssuedAt(ss: seq<State>, es: seq<Event>, i: int)
    requires Execution(ss, es)
  {
    0 <= i < |es| && es[i].Issue?
  }

  /** How old the session issued by step `i` is before step `k`. */
  function Age(ss: seq<State>, i: nat, k: nat): int
    requires i < |ss| && k < |ss|
  {
    ss[k].now - ss[i].now
  }

  /** Step `k` does away with the session: a logout, a revocation that succeeds, or a
      clean-up when the session is older than it may get. */
  ghost predicate EndsSession(ss: seq<State>, es: seq<Event>, i: nat, k: int)
    requires Execution(ss, es) && IssuedAt(ss, es, i)
  {
    && 0 <= k < |es|
    && match es[k]
       case Logout => true
       case Revoke(_, fails) => !fails
       case CleanUp => Age(ss, i, k) > Lifetime(es[i], ss[0].interval)
       case _ => false
  }

  /** What the steps since the issue in step `i` have left of the session. */
  ghost predicate Since(ss: seq<State>, es: seq<Event>, i: nat, k: nat)
    requires Execution(ss, es) && IssuedAt(ss, es, i) && i < k < |ss|
  {
    && ss[k].issued
    && (ss[k].row.Some? ==> ss[k].row.value.expiresAt == ss[i].now + Lifetime(es[i], ss[0].interval))
    && (ss[k].row.Some? <==> forall m | i < m < k :: !EndsSession(ss, es, i, m))
  }

  lemma SinceStep(ss: seq<State>, es: seq<Event>, i: nat, k: nat)
    requires Execution(ss, es) && IssuedAt(ss, es, i) && i < k < |es| && Since(ss, es, i, k)
    ensures Since(ss, es, i, k + 1)
  {
    assert Enabled(ss[k], es[k]) && ss[k + 1] == Step(ss[k], es[k]);
    assert ss[k + 1].row.Some? <==> ss[k].row.Some? && !EndsSession(ss, es, i, k);
  }

  /** The row is there until a step ends the session, and expires its lifetime after the issue. */
  lemma {:induction false} RowLasts(ss: seq<State>, es: seq<Event>, i: nat, k: nat)
    requires Execution(ss, es) && IssuedAt(ss, es, i) && i < k < |ss|
    ensures Since(ss, es, i, k)
    decreases k
  {
    InvHolds(ss, es, k - 1);
    if i + 1 < k {
      RowLasts(ss, es, i, k - 1);
      SinceStep(ss, es, i, k - 1);
    } else {
      assert Enabled(ss[i], es[i]) && ss[k] == Step(ss[i], es[i]);
    }
  }

  lemma {:induction false} IssuedBefore(ss: seq<State>, es: seq<Event>, k: nat) returns (i: nat)
    requires Execution(ss, es) && k < |ss| && ss[k].issued
    ensures i < k && IssuedAt(ss, es, i)
  {
    assert Enabled(ss[k - 1], es[k - 1]) && ss[k] == Step(ss[k - 1], es[k - 1]);
    if es[k - 1].Issue? {
      i := k - 1;
    } else {
      i := IssuedBefore(ss, es, k - 1);
    }
  }

  /** A request finds the session exactly when nothing has ended it since its issue and it is
      younger than its lifetime. */
  lemma LoadsWhileLive(ss: seq<State>, es: seq<Event>, i: nat, k: nat, id: RequestId)
    requires Execution(ss, es) && IssuedAt(ss, es, i) && i < k < |es| && es[k] == Load(id)
    ensures ss[k + 1].requests[id] ==
            if (forall m | i < m < k :: !EndsSession(ss, es, i, m)) && Age(ss, i, k) < Lifetime(es[i], ss[0].interval)
            then Loaded else Rejected
  {
    RowLasts(ss, es, i, k);
    assert Enabled(ss[k], es[k]) && ss[k + 1] == Step(ss[k], es[k]);
  }

  /** Step `j` is this request's load, which finds the session issued by step `i` alive. */
  ghost predicate LoadedLive(ss: seq<State>, es: seq<Event>, i: int, j: int, id: RequestId)
    requires Execution(ss, es)
  {
    && IssuedAt(ss, es, i) && i < j < |es| && es[j] == Load(id)
    && Age(ss, i, j) < Lifetime(es[i], ss[0].interval)
    && forall m | i < m < j :: !EndsSession(ss, es, i, m)
  }

  /** Every request that is not refused has loaded the session while it was alive. */
  lemma {:induction false} WasLoaded(ss: seq<State>, es: seq<Event>, k: nat, id: RequestId) returns (i: nat, j: nat)
    requires Execution(ss, es) && k < |ss| && id in ss[k].requests && !ss[k].requests[id].Rejected?
    ensures j < k && LoadedLive(ss, es, i, j, id)
  {
    assert Enabled(ss[k - 1], es[k - 1]) && ss[k] == Step(ss[k - 1], es[k - 1]);
    if es[k - 1] == Load(id) {
      InvHolds(ss, es, k - 1);
      j := k - 1;
      i := IssuedBefore(ss, es, j);
      LoadsWhileLive(ss, es, i, j, id);
    } else {
      i, j := WasLoaded(ss, es, k - 1, id);
    }
  }

  // ----- how fresh an acceptance is ----------------------------------------------------------------

  /** The latest issue or claim is at most one interval old. */
  predicate Fresh(s: State) {
    s.stamps != [] && s.now - s.stamps[|s.stamps| - 1] <= s.interval
  }

  predicate HasAccepted(s: State, id: RequestId) {
    id in s.requests && s.requests[id].Accepted?
  }

  /** Step `k` accepts request `id`. */
  ghost predicate Accepts(ss: seq<State>, es: seq<Event>, k: nat, id: RequestId)
    requires Execution(ss, es) && k < |es|
  {
    HasAccepted(ss[k + 1], id) && !HasAccepted(ss[k], id)
  }

  /** Only a claim or the end of an exchange accepts a request, and only its own; and the
      request has loaded the session while it was alive. */
  lemma AcceptingSteps(ss: seq<State>, es: seq<Event>, k: nat, id: RequestId)
    requires Execution(ss, es) && k < |es| && Accepts(ss, es, k, id)
    ensures es[k] == Claim(id) || (es[k].Store? && es[k].id == id)
    ensures exists i, j :: j < k && LoadedLive(ss, es, i, j, id)
  {
    var i, j := WasLoaded(ss, es, k, id);
    assert Enabled(ss[k], es[k]) && ss[k + 1] == Step(ss[k], es[k]);
  }

  /** When an acceptance is backed by an issue or claim no older than one interval. A claim
      that finds the row is; one that finds it gone is iff the last stamp still is fresh;
      and so is the end of an exchange. */
  lemma AcceptanceIsFresh(ss: seq<State>, es: seq<Event>, k: nat, id: RequestId)
    requires Execution(ss, es) && k < |es| && Accepts(ss, es, k, id)
    ensures Fresh(ss[k + 1]) <==> (es[k].Claim? && ss[k].row.Some?) || Fresh(ss[k])
  {
    InvHolds(ss, es, k);
    AcceptingSteps(ss, es, k, id);
    assert Enabled(ss[k], es[k]) && ss[k + 1] == Step(ss[k], es[k]);
  }

  /** A claim, whether it accepts the request or sends it to the provider. */
  lemma ClaimIsFreshIfRowPresent(ss: seq<State>, es: seq<Event>, k: nat, id: RequestId)
    requires Execution(ss, es) && k < |es| && es[k] == Claim(id)
    ensures ss[k].row.None? ==> ss[k + 1].requests[id] == Accepted(ss[k].now, ss[k].now)
    ensures Fresh(ss[k + 1]) <==> ss[k].row.Some? || Fresh(ss[k])
  {
    InvHolds(ss, es, k);
  }

  /** A claim sends the request to the provider exactly when there is a refresh token to
      present and the last issue or claim is more than one interval old. */
  lemma ClaimAsksWhenStale(ss: seq<State>, es: seq<Event>, k: nat, id: RequestId)
    requires Execution(ss, es) && k < |es| && es[k] == Claim(id)
    ensures ss[k + 1].requests[id] ==
            if ss[k].row.Some? && ss[k].row.value.refresh.Some? && !Fresh(ss[k])
            then Refreshing(ss[k].row.value.refresh.value, ss[k].now) else Accepted(ss[k].now, ss[k].now)
  {
    InvHolds(ss, es, k);
    assert Enabled(ss[k], es[k]) && ss[k + 1] == Step(ss[k], es[k]);
  }

  /** The provider's answer decides: a refused request is never let in, one that was
      refreshed is never turned away and stores the token it was given. */
  lemma {:induction false} VerdictDecides(
    ss: seq<State>, es: seq<Event>, j: nat, k: nat, id: RequestId, verdict: Verdict)
    requires Execution(ss, es) && j < k < |ss| && es[j] == Ask(id, verdict)
    ensures id in ss[k].requests && id in ss[j].requests && ss[j].requests[id].Refreshing?
    ensures match ss[k].requests[id]
            case Revoking(_) | Rejected => verdict.Refused?
            case Storing(next, _) =>
              verdict.Refreshed? && next == (if verdict.rotated.Some? then verdict.rotated.value
                                             else ss[j].requests[id].token)
            case Accepted(_, _) => verdict.Refreshed?
            case _ => false
    decreases k
  {
    assert Enabled(ss[j], es[j]);
    assert Enabled(ss[k - 1], es[k - 1]) && ss[k] == Step(ss[k - 1], es[k - 1]);
    if j + 1 < k {
      VerdictDecides(ss, es, j, k - 1, id, verdict);
    }
  }

  // ----- a request is accepted on its own claim ------------------------------------------------------

  /** Step `j` is this request's claim; it won the re-check if the row was due. */
  ghost predicate ClaimedAt(ss: seq<State>, es: seq<Event>, j: int, id: RequestId, t: int)
    requires Execution(ss, es)
  {
    0 <= j < |es| && es[j] == Claim(id) && ss[j].now == t
  }

  ghost predicate WonBefore(ss: seq<State>, es: seq<Event>, k: nat, id: RequestId, t: int)
    requires Execution(ss, es)
  {
    exists j :: ClaimedAt(ss, es, j, id, t) && j < k && Due(ss[j])
  }

  ghost predicate ClaimedBefore(ss: seq<State>, es: seq<Event>, k: nat, id: RequestId, t: int)
    requires Execution(ss, es)
  {
    exists j :: ClaimedAt(ss, es, j, id, t) && j < k
  }

  /** What a request remembers of its claim is its own claim. */
  ghost predicate RemembersOwnClaim(ss: seq<State>, es: seq<Event>, k: nat, id: RequestId)
    requires Execution(ss, es) && k < |ss|
  {
    id in ss[k].requests ==>
      match ss[k].requests[id]
      case Refreshing(_, at) => WonBefore(ss, es, k, id, at) && at <= ss[k].now
      case Storing(_, at) => WonBefore(ss, es, k, id, at) && at <= ss[k].now
      case Revoking(at) => WonBefore(ss, es, k, id, at) && at <= ss[k].now
      case Accepted(decided, at) =>
        && decided <= at <= ss[k].now && ClaimedBefore(ss, es, k, id, decided)
        && (decided < at ==> WonBefore(ss, es, k, id, decided))
      case _ => true
  }

  lemma RemembersLater(ss: seq<State>, es: seq<Event>, k: nat, id: RequestId)
    requires Execution(ss, es) && k + 1 < |ss| && RemembersOwnClaim(ss, es, k, id)
    requires id in ss[k].requests && id in ss[k + 1].requests && ss[k + 1].requests[id] == ss[k].requests[id]
    requires ss[k].now <= ss[k + 1].now
    ensures RemembersOwnClaim(ss, es, k + 1, id)
  {
  }

  lemma ClaimRemembered(ss: seq<State>, es: seq<Event>, k: nat, id: RequestId)
    requires Execution(ss, es) && k < |es| && es[k] == Claim(id)
    ensures RemembersOwnClaim(ss, es, k + 1, id)
  {
    assert Enabled(ss[k], es[k]) && ss[k + 1] == Step(ss[k], es[k]);
    assert ClaimedAt(ss, es, k, id, ss[k].now);
  }

  /** Only its own steps change a request, and time never runs back. */
  lemma OnlyOwnSteps(s: State, e: Event, id: RequestId)
    requires Enabled(s, e) && id in Step(s, e).requests
    ensures s.now <= Step(s, e).now
    ensures
      || (id in s.requests && Step(s, e).requests[id] == s.requests[id])
      || (e == Load(id) && (Step(s, e).requests[id].Loaded? || Step(s, e).requests[id].Rejected?))
      || e == Claim(id)
      || (id in s.requests && s.requests[id].Pending())
  {
  }

  /** An exchange's steps carry the claim along. */
  lemma MovesOn(ss: seq<State>, es: seq<Event>, k: nat, id: RequestId)
    requires Execution(ss, es) && k < |es| && RemembersOwnClaim(ss, es, k, id)
    requires id in ss[k].requests && ss[k + 1].requests[id] != ss[k].requests[id] && es[k] != Claim(id)
    ensures RemembersOwnClaim(ss, es, k + 1, id)
  {
    assert Enabled(ss[k], es[k]) && ss[k + 1] == Step(ss[k], es[k]);
  }

  /** A request that went to the provider did so on its own claim, and one accepted was
      accepted on its own claim: `acceptedAt - decidedAt` is how long its exchange took. */
  lemma {:induction false} AcceptedOnOwnClaim(ss: seq<State>, es: seq<Event>, k: nat, id: RequestId)
    requires Execution(ss, es) && k < |ss|
    ensures RemembersOwnClaim(ss, es, k, id)
  {
    if k > 0 && id in ss[k].requests {
      AcceptedOnOwnClaim(ss, es, k - 1, id);
      StepRemembers(ss, es, k - 1, id);
    }
  }

  lemma StepRemembers(ss: seq<State>, es: seq<Event>, k: nat, id: RequestId)
    requires Execution(ss, es) && k < |es| && RemembersOwnClaim(ss, es, k, id) && id in ss[k + 1].requests
    ensures RemembersOwnClaim(ss, es, k + 1, id)
  {
    OnlyOwnSteps(ss[k], es[k], id);
    if es[k] == Claim(id) {
      ClaimRemembered(ss, es, k, id);
    } else if id in ss[k].requests {
      if ss[k + 1].requests[id] == ss[k].requests[id] {
        RemembersLater(ss, es, k, id);
      } else {
        MovesOn(ss, es, k, id);
      }
    }
  }

  // ----- prompt exchanges ------------------------------------------------------------------------------

  /** Every exchange is over, stored or revoked, within one interval of its claim. */
  ghost predicate Prompt(s: State) {
    forall id | id in s.requests && s.requests[id].Pending() :: s.now - s.requests[id].claimedAt <= s.interval
  }

  /** A won claim leaves a stamp, and later stamps are no older. */
  lemma {:induction false} LastStampSince(ss: seq<State>, es: seq<Event>, j: nat, k: nat)
    requires Execution(ss, es) && j < k < |ss| && es[j].Claim? && Due(ss[j])
    ensures ss[k].stamps != [] && ss[j].now <= ss[k].stamps[|ss[k].stamps| - 1]
    decreases k
  {
    InvHolds(ss, es, k - 1);
    if j < k - 1 {
      LastStampSince(ss, es, j, k - 1);
    }
    LastStampStep(ss[k - 1], es[k - 1]);
  }

  lemma LastStampStep(s: State, e: Event)
    requires Inv(s) && Enabled(s, e) && s.stamps != []
    ensures var t := Step(s, e);
            t.stamps != [] && s.stamps[|s.stamps| - 1] <= t.stamps[|t.stamps| - 1] &&
            (e.Claim? && Due(s) ==> t.stamps[|t.stamps| - 1] == s.now)
  {
  }

  /** An exchange that took no longer than one interval ends in a fresh acceptance. */
  lemma QuickExchangeIsFresh(ss: seq<State>, es: seq<Event>, k: nat, id: RequestId)
    requires Execution(ss, es) && k < |es| && es[k].Store? && es[k].id == id
    requires id in ss[k].requests && ss[k].requests[id].Storing?
    requires ss[k].now - ss[k].requests[id].claimedAt <= ss[k].interval
    ensures Fresh(ss[k + 1])
  {
    AcceptedOnOwnClaim(ss, es, k, id);
    var at := ss[k].requests[id].claimedAt;
    var j :| ClaimedAt(ss, es, j, id, at) && j < k && Due(ss[j]);
    LastStampSince(ss, es, j, k);
    assert ss[k + 1] == Step(ss[k], es[k]);
  }

  /** With prompt exchanges the only stale acceptance is a claim that finds the row gone. */
  lemma OnlyLogoutMakesStale(ss: seq<State>, es: seq<Event>, k: nat, id: RequestId)
    requires Execution(ss, es) && k < |es| && Accepts(ss, es, k, id) && Prompt(ss[k])
    ensures !Fresh(ss[k + 1]) <==> es[k] == Claim(id) && ss[k].row.None? && !Fresh(ss[k])
  {
    AcceptingSteps(ss, es, k, id);
    AcceptanceIsFresh(ss, es, k, id);
    if es[k].Store? {
      assert Enabled(ss[k], es[k]);
      QuickExchangeIsFresh(ss, es, k, id);
    }
  }

  // ----- both ways to be stale do occur -------------------------------------------------------------

  lemma Extend(ss: seq<State>, es: seq<Event>, e: Event) returns (longer: seq<State>)
    requires Execution(ss, es) && Enabled(ss[|es|], e)
    ensures Execution(longer, es + [e]) && longer == ss + [Step(ss[|es|], e)]
  {
    longer := ss + [Step(ss[|es|], e)];
    forall i | 0 <= i < |es| + 1
      ensures Enabled(longer[i], (es + [e])[i]) && longer[i + 1] == Step(longer[i], (es + [e])[i])
    {
      assert i < |es| ==> Enabled(ss[i], es[i]) && ss[i + 1] == Step(ss[i], es[i]);
    }
  }

  const IDLE: seq<Event> := [Issue(Some(7)), Tick(1000), Load(0)]

  /** Issued at 0, idle for 1000 s, then loaded by a request, with a 300 s interval. */
  lemma IdleSession() returns (ss: seq<State>)
    ensures Execution(ss, IDLE) && forall i | 1 <= i <= 3 :: ss[i].row.Some?
    ensures var row := SessionRow(Some(7), 0, SESSION_LIFETIME);
            ss[3] == State(1000, 300, true, Some(row), map[0 := Loaded], [0], {7}, [])
  {
    var s0 := State(0, 300, false, None, map[], [], {}, []);
    var s1 := Step(s0, IDLE[0]);
    var s2 := Step(s1, IDLE[1]);
    ss := [s0, s1, s2, Step(s2, IDLE[2])];
  }

  /** Logged out by another request, and accepted after the fact with a 1000 s old check. */
  lemma LogoutRaceIsStale() returns (ss: seq<State>, es: seq<Event>)
    ensures Execution(ss, es) && |es| == 5 && es[4] == Claim(0) && Accepts(ss, es, 4, 0)
    ensures ss[5].requests[0] == Accepted(1000, 1000) && ss[5].row == None && !Fresh(ss[5])
  {
    ss := IdleSession();
    ss := Extend(ss, IDLE, Logout);
    ss := Extend(ss, IDLE + [Logout], Claim(0));
    es := IDLE + [Logout] + [Claim(0)];
  }

  /** The row present throughout, but the exchange takes 4000 s: the request is accepted when
      the check it rests on is that old. */
  lemma SlowExchangeIsStale() returns (ss: seq<State>, es: seq<Event>)
    ensures Execution(ss, es) && |es| == 7 && es[6] == Store(0, false) && Accepts(ss, es, 6, 0)
    ensures forall i | 1 <= i < |ss| :: ss[i].row.Some?
    ensures ss[7].requests[0] == Accepted(1000, 5000) && !Fresh(ss[7])
  {
    ss := IdleSession();
    es := IDLE;
    ss := Extend(ss, es, Claim(0));
    es := es + [Claim(0)];
    ss := Extend(ss, es, Ask(0, Refreshed(Some(8))));
    es := es + [Ask(0, Refreshed(Some(8)))];
    ss := Extend(ss, es, Tick(4000));
    es := es + [Tick(4000)];
    ss := Extend(ss, es, Store(0, false));
    es := es + [Store(0, false)];
  }

  // ----- deletion is final -----------------------------------------------------------------------------

  /** Once the row is gone no step, late UPDATE or not, brings it back. */
  lemma {:induction false} DeletedStaysDeleted(ss: seq<State>, es: seq<Event>, k: nat, j: nat)
    requires Execution(ss, es) && k <= j < |ss|
    requires ss[k].issued && ss[k].row.None?
    ensures ss[j].issued && ss[j].row.None?
    decreases j
  {
    if k < j {
      DeletedStaysDeleted(ss, es, k, j - 1);
      assert ss[j] == Step(ss[j - 1], es[j - 1]);
    }
  }

  // ----- no refresh token is spent twice -------------------------------------------------------------

  /** The provider rotates and the database keeps its promises. */
  predicate WellBehaved(e: Event) {
    match e
    case Ask(_, Refreshed(rotated)) => rotated.Some?
    case Store(_, fails) => !fails
    case Revoke(_, fails) => !fails
    case _ => true
  }

  ghost predicate NoDuplicates(tokens: seq<Token>) {
    forall i, j | 0 <= i < j < |tokens| :: tokens[i] != tokens[j]
  }

  /** At most one request is in the middle of an exchange, and its claim is the latest. */
  ghost predicate OneExchange(s: State) {
    && (forall id | id in s.requests && s.requests[id].Pending() ::
          s.stamps != [] && s.requests[id].claimedAt == s.stamps[|s.stamps| - 1])
    && (forall a, b | a in s.requests && b in s.requests && s.requests[a].Pending() && s.requests[b].Pending() ::
          a == b)
  }

  ghost predicate Unspent(s: State, t: Token) {
    t in s.minted && t !in s.spent
  }

  /** The row's token is unspent whenever no exchange is under way, and an exchange holds
      an unspent token until it presents it and again once it has the next one. */
  ghost predicate TokensFresh(s: State) {
    && NoDuplicates(s.spent)
    && (forall t | t in s.spent :: t in s.minted)
    && (Quiet(s) && s.row.Some? && s.row.value.refresh.Some? ==> Unspent(s, s.row.value.refresh.value))
    && (forall id | id in s.requests && s.requests[id].Refreshing? :: Unspent(s, s.requests[id].token))
    && (forall id | id in s.requests && s.requests[id].Storing? :: Unspent(s, s.requests[id].next))
  }

  /** While an exchange is pending and prompt, nobody else can claim. */
  lemma PendingBlocksClaims(s: State, id: RequestId)
    requires Inv(s) && Prompt(s) && OneExchange(s)
    requires id in s.requests && s.requests[id].Pending()
    ensures !Due(s)
  {
  }

  lemma StepKeepsExchange(s: State, e: Event)
    requires Inv(s) && Prompt(s) && OneExchange(s) && Enabled(s, e)
    ensures OneExchange(Step(s, e))
  {
    if id :| id in s.requests && s.requests[id].Pending() {
      PendingBlocksClaims(s, id);
    }
  }

  predicate Quiet(s: State) {
    forall id | id in s.requests :: !s.requests[id].Pending()
  }

  lemma QuietBefore(s: State, id: RequestId, r: Request)
    requires id in s.requests ==> !s.requests[id].Pending()
    ensures Quiet(Advance(s, id, r)) ==> Quiet(s)
  {
    var after := Advance(s, id, r);
    assert forall x | x in s.requests && x != id :: x in after.requests && after.requests[x] == s.requests[x];
  }

  lemma StepKeepsTokens(s: State, e: Event)
    requires Inv(s) && Prompt(s) && OneExchange(s) && TokensFresh(s) && Enabled(s, e) && WellBehaved(e)
    ensures TokensFresh(Step(s, e))
  {
    var s' := Step(s, e);
    match e
    case Tick(_) =>
    case Issue(_) =>
    case Load(id) =>
      QuietBefore(s, id, s'.requests[id]);
    case Claim(id) =>
      if Due(s) {
        assert Quiet(s) by {
          if other :| other in s.requests && s.requests[other].Pending() { PendingBlocksClaims(s, other); }
        }
      } else {
        QuietBefore(s, id, s'.requests[id]);
      }
    case Ask(id, _) =>
      assert s'.requests[id].Pending();
    case Store(_, _) =>
    case Revoke(_, _) =>
    case Logout =>
    case CleanUp =>
  }

  lemma {:induction false} ExchangeHolds(ss: seq<State>, es: seq<Event>, k: nat)
    requires Execution(ss, es) && k < |ss|
    requires forall i | 0 <= i < |ss| :: Prompt(ss[i])
    requires forall e | e in es :: WellBehaved(e)
    ensures OneExchange(ss[k]) && TokensFresh(ss[k])
  {
    if k > 0 {
      ExchangeHolds(ss, es, k - 1);
      InvHolds(ss, es, k - 1);
      assert es[k - 1] in es;
      StepKeepsExchange(ss[k - 1], es[k - 1]);
      StepKeepsTokens(ss[k - 1], es[k - 1]);
    }
  }

  /** With prompt exchanges and a rotating provider no refresh token is presented twice. */
  lemma NoTokenSpentTwice(ss: seq<State>, es: seq<Event>, k: nat)
    requires Execution(ss, es) && k < |ss|
    requires forall i | 0 <= i < |ss| :: Prompt(ss[i])
    requires forall e | e in es :: WellBehaved(e)
    ensures NoDuplicates(ss[k].spent)
  {
    ExchangeHolds(ss, es, k);
  }
}
