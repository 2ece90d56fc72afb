/** Properties of every run of the authentication calls. */
module AuthLaws {
  import opened Auth
  import opened Domain

  datatype Event = Event(now: int, op: Op)

  function After(start: Store, run: seq<Event>): Store {
    if run == [] then start
    else
      var e := run[|run| - 1];
      Step(After(start, run[..|run| - 1]), e.now, e.op).0
  }

  function OutcomeAt(start: Store, run: seq<Event>, i: nat): Outcome
    requires i < |run|
  {
    Step(After(start, run[..i]), run[i].now, run[i].op).1
  }

  lemma AfterStep(start: Store, run: seq<Event>, i: nat)
    requires i < |run|
    ensures After(start, run[..i + 1]) == Step(After(start, run[..i]), run[i].now, run[i].op).0
  {
    assert run[..i + 1][..i] == run[..i];
  }

  // ---- Lineage ----

  /** Links lead to later tokens of the same user, no two to the same one, and a linked token is revoked. */
  predicate Lineage(tokens: seq<Token>) {
    && (forall i :: 0 <= i < |tokens| && tokens[i].replacedBy.Some? ==>
          && i < tokens[i].replacedBy.value < |tokens|
          && tokens[tokens[i].replacedBy.value].user == tokens[i].user
          && tokens[i].revokedAt.Some?)
    && (forall i, j :: 0 <= i < j < |tokens| && tokens[i].replacedBy.Some? ==>
          tokens[i].replacedBy != tokens[j].replacedBy)
  }

  /** Nothing a token row says is ever taken back. */
  predicate Extends(older: seq<Token>, newer: seq<Token>) {
    && |older| <= |newer|
    && forall i :: 0 <= i < |older| ==>
         && newer[i].user == older[i].user
         && newer[i].issuedAt == older[i].issuedAt
         && newer[i].expiresAt == older[i].expiresAt
         && (older[i].revokedAt.Some? ==> newer[i].revokedAt == older[i].revokedAt)
         && (older[i].replacedBy.Some? ==> newer[i].replacedBy == older[i].replacedBy)
         && (older[i].revokedAt.Some? && older[i].replacedBy.None? ==> newer[i].replacedBy.None?)
  }

  lemma RevokingKeepsLineage(tokens: seq<Token>, user: nat, now: int)
    requires Lineage(tokens)
    ensures Lineage(RevokeAll(tokens, user, now)) && Extends(tokens, RevokeAll(tokens, user, now))
  {
    var after := RevokeAll(tokens, user, now);
    assert forall i :: 0 <= i < |tokens| ==>
      after[i].replacedBy == tokens[i].replacedBy && after[i].user == tokens[i].user;
  }

  lemma RotatingKeepsLineage(s: Store, now: int, t: nat)
    requires Lineage(s.tokens)
    ensures Lineage(Rotated(s, now, t).0.tokens) && Extends(s.tokens, Rotated(s, now, t).0.tokens)
  {
    if t < |s.tokens| {
      RevokingKeepsLineage(s.tokens, s.tokens[t].user, now);
    }
    var after := Rotated(s, now, t).0.tokens;
    if |after| > |s.tokens| {
      assert after == s.tokens[t := after[t]] + [after[|s.tokens|]];
    }
  }

  lemma ResettingKeepsLineage(s: Store, now: int, i: nat, password: Secret, ok: bool)
    requires Lineage(s.tokens)
    ensures Lineage(ResetConfirmed(s, now, i, password, ok).0.tokens)
    ensures Extends(s.tokens, ResetConfirmed(s, now, i, password, ok).0.tokens)
  {
    if i < |s.resets| { RevokingKeepsLineage(s.tokens, s.resets[i].user, now); }
  }

  lemma IssuingKeepsLineage(s: Store, now: int, user: nat)
    requires Lineage(s.tokens)
    ensures Lineage(Issue(s, now, user).tokens) && Extends(s.tokens, Issue(s, now, user).tokens)
  {
  }

  lemma StepKeepsLineage(s: Store, now: int, op: Op)
    requires Lineage(s.tokens)
    ensures Lineage(Step(s, now, op).0.tokens) && Extends(s.tokens, Step(s, now, op).0.tokens)
  {
    hide Lineage, Extends, Rotated, ResetConfirmed, Issue;
    NoChangeKeepsLineage(s.tokens);
    match op
    case Login(email, password) =>
      IssuingKeepsLineage(Authenticated(s, now, email, password).0, now, FindUser(s.users, email).GetOr(0));
    case Refresh(t) => RotatingKeepsLineage(s, now, t);
    case Logout(t) => LogoutKeepsLineage(s, now, t);
    case AcceptInvite(i, password, ok) =>
      if AcceptedInvite(s, now, i, password, ok).1.Issued? {
        IssuingKeepsLineage(s.(users := s.users + [User(s.invites[i].email, password, true, 0, None, None)],
          invites := s.invites[i := s.invites[i].(status := InviteStatus.Accepted, acceptedAt := Some(now))]), now, |s.users|);
      }
    case ConfirmReset(i, password, ok) => ResettingKeepsLineage(s, now, i, password, ok);
    case _ =>
  }

  lemma NoChangeKeepsLineage(tokens: seq<Token>)
    ensures Extends(tokens, tokens)
  {
  }

  lemma LogoutKeepsLineage(s: Store, now: int, t: nat)
    requires Lineage(s.tokens)
    ensures Lineage(LoggedOut(s, now, t).tokens) && Extends(s.tokens, LoggedOut(s, now, t).tokens)
  {
  }

  /** Over every run the links stay a forest of chains within one user, a superseded token stays revoked,
      and no revocation time or link is ever cleared or overwritten. */
  lemma {:induction false} RunKeepsLineage(start: Store, run: seq<Event>, i: nat)
    requires Lineage(start.tokens) && i <= |run|
    ensures Lineage(After(start, run).tokens) && Lineage(After(start, run[..i]).tokens)
    ensures Extends(After(start, run[..i]).tokens, After(start, run).tokens)
  {
    if i < |run| {
      var front, e := run[..|run| - 1], run[|run| - 1];
      RunKeepsLineage(start, front, i);
      assert front[..i] == run[..i];
      StepKeepsLineage(After(start, front), e.now, e.op);
    } else {
      assert run[..i] == run;
      if i > 0 {
        RunKeepsLineage(start, run[..i - 1], i - 1);
        assert run[..i - 1][..i - 1] == run[..i - 1];
        StepKeepsLineage(After(start, run[..i - 1]), run[i - 1].now, run[i - 1].op);
      }
    }
  }

  /** `j` descends from `i` by following links. */
  predicate Descends(tokens: seq<Token>, i: nat, j: nat)
    requires Lineage(tokens)
    decreases |tokens| - i
  {
    i < |tokens| && (i == j || (tokens[i].replacedBy.Some? && Descends(tokens, tokens[i].replacedBy.value, j)))
  }

  lemma {:induction false} DescendsForward(tokens: seq<Token>, i: nat, j: nat)
    requires Lineage(tokens) && Descends(tokens, i, j)
    ensures i <= j < |tokens| && tokens[j].user == tokens[i].user
    ensures i != j ==> tokens[i].revokedAt.Some?
    decreases |tokens| - i
  {
    if i != j { DescendsForward(tokens, tokens[i].replacedBy.value, j); }
  }

  lemma {:induction false} DescendsExtend(tokens: seq<Token>, i: nat, j: nat, k: nat)
    requires Lineage(tokens) && Descends(tokens, i, j) && Descends(tokens, j, k)
    ensures Descends(tokens, i, k)
    decreases |tokens| - i
  {
    if i != j { DescendsExtend(tokens, tokens[i].replacedBy.value, j, k); }
  }

  /** A chain does not branch: of two descendants one descends from the other. */
  lemma {:induction false} ChainIsLinear(tokens: seq<Token>, a: nat, i: nat, j: nat)
    requires Lineage(tokens) && Descends(tokens, a, i) && Descends(tokens, a, j)
    ensures Descends(tokens, i, j) || Descends(tokens, j, i)
    decreases |tokens| - a
  {
    if a != i && a != j { ChainIsLinear(tokens, tokens[a].replacedBy.value, i, j); }
  }

  /** Chains do not merge either: the ancestors of a token are ordered. */
  lemma {:induction false} ChainsDoNotMerge(tokens: seq<Token>, i: nat, j: nat, a: nat)
    requires Lineage(tokens) && Descends(tokens, i, a) && Descends(tokens, j, a)
    ensures Descends(tokens, i, j) || Descends(tokens, j, i)
    decreases 2 * |tokens| - i - j
  {
    if i != a && j != a && i != j {
      var i', j' := tokens[i].replacedBy.value, tokens[j].replacedBy.value;
      assert i' != j';
      ChainsDoNotMerge(tokens, i', j', a);
      if Descends(tokens, i', j') { LastLink(tokens, i', j', j); } else { LastLink(tokens, j', i', i); }
    }
  }

  lemma LinksAreInjective(tokens: seq<Token>, i: nat, j: nat)
    requires Lineage(tokens) && i < |tokens| && j < |tokens|
    requires tokens[i].replacedBy.Some? && tokens[i].replacedBy == tokens[j].replacedBy
    ensures i == j
  {
  }

  /** A chain that reaches the successor of `p` from elsewhere goes through `p`. */
  lemma {:induction false} LastLink(tokens: seq<Token>, i: nat, s: nat, p: nat)
    requires Lineage(tokens) && p < |tokens| && tokens[p].replacedBy == Some(s)
    requires Descends(tokens, i, s) && i != s
    ensures Descends(tokens, i, p)
    decreases |tokens| - i
  {
    var next := tokens[i].replacedBy.value;
    if next == s {
      LinksAreInjective(tokens, i, p);
    } else {
      LastLink(tokens, next, s, p);
    }
  }

  /** Of all the tokens of one chain at most one is unrevoked, and nothing supersedes it. */
  lemma OneLiveTokenPerChain(tokens: seq<Token>, a: nat, i: nat, j: nat)
    requires Lineage(tokens) && i < |tokens| && j < |tokens| && Descends(tokens, a, i) && Descends(tokens, a, j)
    requires tokens[i].revokedAt.None?
    ensures tokens[i].replacedBy.None?
    ensures tokens[j].revokedAt.None? ==> i == j
    ensures Descends(tokens, j, i)
  {
    ChainIsLinear(tokens, a, i, j);
    DescendsForward(tokens, a, i);
    if Descends(tokens, i, j) { DescendsForward(tokens, i, j); }
    if Descends(tokens, j, i) { DescendsForward(tokens, j, i); }
  }

  /** In no run is a token rotated successfully twice. */
  lemma RotatedAtMostOnce(start: Store, run: seq<Event>, i: nat, j: nat, t: nat)
    requires Lineage(start.tokens) && i < j < |run|
    requires run[i].op == Refresh(t) && run[j].op == Refresh(t)
    requires OutcomeAt(start, run, i).Issued?
    ensures !OutcomeAt(start, run, j).Issued?
  {
    AfterStep(start, run, i);
    RunKeepsLineage(start, run[..j], i + 1);
    assert run[..j][..i + 1] == run[..i + 1];
  }

  // ---- Replay ----

  /** The call at `p` revoked every token of `u`: a replay was detected, or a password was reset. */
  predicate RevokesAllOf(s: Store, e: Event, u: nat) {
    var r := Step(s, e.now, e.op).1;
    || (e.op.Refresh? && r.ReplayDetected? && s.tokens[e.op.token].user == u)
    || (e.op.ConfirmReset? && r.Done? && s.resets[e.op.reset].user == u)
  }

  /** The call is one that revokes the live token `t`: its rotation, its logout, or a revocation of all. */
  predicate Revokes(s: Store, e: Event, t: nat) {
    && t < |s.tokens|
    && s.tokens[t].revokedAt.None?
    && (|| (e.op == Refresh(t) && Step(s, e.now, e.op).1.Issued?)
        || e.op == Logout(t)
        || RevokesAllOf(s, e, s.tokens[t].user))
  }

  lemma StepRevocation(s: Store, e: Event, t: nat)
    requires t < |Step(s, e.now, e.op).0.tokens|
    ensures Step(s, e.now, e.op).0.tokens[t].revokedAt.Some?
       <==> (t < |s.tokens| && s.tokens[t].revokedAt.Some?) || Revokes(s, e, t)
  {
  }

  predicate RevokedBy(start: Store, run: seq<Event>, i: nat, t: nat)
    requires i < |run|
  {
    Revokes(After(start, run[..i]), run[i], t)
  }

  /** A token is revoked exactly when some call of the run revoked it. */
  lemma {:induction false} RevokedExactly(start: Store, run: seq<Event>, t: nat)
    requires start.tokens == [] && t < |After(start, run).tokens|
    ensures After(start, run).tokens[t].revokedAt.Some? <==> exists i :: 0 <= i < |run| && RevokedBy(start, run, i, t)
  {
    hide Step, Revokes;
    if run != [] {
      var front, e := run[..|run| - 1], run[|run| - 1];
      forall i | 0 <= i < |front| ensures RevokedBy(start, front, i, t) <==> RevokedBy(start, run, i, t) {
        assert front[..i] == run[..i] && front[i] == run[i];
      }
      StepRevocation(After(start, front), e, t);
      assert RevokedBy(start, run, |front|, t) <==> Revokes(After(start, front), e, t);
      if t < |After(start, front).tokens| {
        RevokedExactly(start, front, t);
      } else {
        NotYetRevoked(start, front, t);
      }
    }
  }

  lemma {:induction false} NotYetRevoked(start: Store, run: seq<Event>, t: nat)
    requires t >= |After(start, run).tokens|
    ensures forall i :: 0 <= i < |run| ==> !RevokedBy(start, run, i, t)
  {
    forall i | 0 <= i < |run| ensures !RevokedBy(start, run, i, t) {
      TokensOnlyGrow(start, run, i);
    }
  }

  lemma {:induction false} TokensOnlyGrow(start: Store, run: seq<Event>, i: nat)
    requires i <= |run|
    ensures |After(start, run[..i]).tokens| <= |After(start, run).tokens|
  {
    if i == |run| {
      assert run[..i] == run;
    } else {
      var front, e := run[..|run| - 1], run[|run| - 1];
      assert front[..i] == run[..i];
      TokensOnlyGrow(start, front, i);
      TokensGrow(After(start, front), e);
      hide Step;
    }
  }

  lemma TokensGrow(s: Store, e: Event)
    ensures |s.tokens| <= |Step(s, e.now, e.op).0.tokens|
  {
  }

  /** Replay detection over runs: presenting a token counts as a replay exactly when it is a token of the run, not
      expired, and an earlier call rotated it, logged it out, or revoked all tokens of its user. */
  lemma ReplayDetectedExactly(start: Store, run: seq<Event>, j: nat, t: nat)
    requires start.tokens == [] && j < |run| && run[j].op == Refresh(t)
    ensures var tokens := After(start, run[..j]).tokens;
      OutcomeAt(start, run, j).ReplayDetected?
      <==> t < |tokens| && tokens[t].expiresAt > run[j].now && exists i :: 0 <= i < j && RevokedBy(start, run, i, t)
  {
    var tokens := After(start, run[..j]).tokens;
    if t < |tokens| {
      RevokedExactly(start, run[..j], t);
      forall i | 0 <= i < j ensures RevokedBy(start, run[..j], i, t) <==> RevokedBy(start, run, i, t) {
        assert run[..j][..i] == run[..i] && run[..j][i] == run[i];
      }
    }
  }

  predicate AllRevoked(tokens: seq<Token>, u: nat, n: nat)
    requires n <= |tokens|
  {
    forall i :: 0 <= i < n && tokens[i].user == u ==> tokens[i].revokedAt.Some?
  }

  lemma EverythingRevokedAt(s: Store, e: Event, u: nat)
    requires RevokesAllOf(s, e, u)
    ensures var after := Step(s, e.now, e.op).0.tokens; |after| == |s.tokens| && AllRevoked(after, u, |after|)
  {
  }

  /** Token `j` descends from one issued by a login or an accepted invitation of the run after position `p`. */
  ghost predicate FreshSince(start: Store, run: seq<Event>, p: nat, j: nat)
    requires Lineage(start.tokens)
  {
    exists q :: p < q < |run| && FreshFrom(start, run, q, j)
  }

  ghost predicate FreshFrom(start: Store, run: seq<Event>, q: nat, j: nat)
    requires Lineage(start.tokens) && q < |run|
  {
    RunKeepsLineage(start, run, q);
    && (run[q].op.Login? || run[q].op.AcceptInvite?)
    && OutcomeAt(start, run, q).Issued?
    && Descends(After(start, run).tokens, |After(start, run[..q]).tokens|, j)
  }

  /** Descent survives further steps. */
  lemma {:induction false} DescendsStays(older: seq<Token>, newer: seq<Token>, i: nat, j: nat)
    requires Lineage(older) && Lineage(newer) && Extends(older, newer) && Descends(older, i, j)
    ensures Descends(newer, i, j)
    decreases |older| - i
  {
    if i != j { DescendsStays(older, newer, older[i].replacedBy.value, j); }
  }

  lemma FreshStays(start: Store, run: seq<Event>, e: Event, p: nat, j: nat)
    requires Lineage(start.tokens) && FreshSince(start, run, p, j)
    ensures FreshSince(start, run + [e], p, j)
  {
    var q :| p < q < |run| && FreshFrom(start, run, q, j);
    var longer := run + [e];
    assert longer[..|run|] == run && longer[..q] == run[..q] && longer[q] == run[q];
    RunKeepsLineage(start, run, q);
    RunKeepsLineage(start, longer, |run|);
    DescendsStays(After(start, run).tokens, After(start, longer).tokens, |After(start, run[..q]).tokens|, j);
    assert FreshFrom(start, longer, q, j);
  }

  /** The token a step adds, if any, comes from a login, an acceptance, or the rotation of a live token. */
  lemma NewToken(s: Store, now: int, op: Op)
    requires Lineage(s.tokens)
    ensures var (after, r) := Step(s, now, op);
      && (|after.tokens| == |s.tokens| || (|after.tokens| == |s.tokens| + 1 && r == Issued(|s.tokens|)))
      && (|after.tokens| > |s.tokens| ==>
            || op.Login? || op.AcceptInvite?
            || (op.Refresh? && op.token < |s.tokens| && s.tokens[op.token].revokedAt.None?
                && after.tokens[op.token].replacedBy == Some(|s.tokens|)
                && after.tokens[|s.tokens|].user == s.tokens[op.token].user))
  {
  }

  /** After a replay or a password reset at position `p`: every token of the user issued until then stays
      revoked for good, and whatever they hold later descends from a login or an acceptance after `p`. */
  lemma {:induction false} ReplayCutsOff(start: Store, run: seq<Event>, p: nat, u: nat)
    requires Lineage(start.tokens) && p < |run|
    requires RevokesAllOf(After(start, run[..p]), run[p], u)
    ensures var n := |After(start, run[..p]).tokens|; var tokens := After(start, run).tokens;
      && n <= |tokens| && AllRevoked(tokens, u, n)
      && forall j :: n <= j < |tokens| && tokens[j].user == u ==> FreshSince(start, run, p, j)
  {
    hide Step, FreshSince, Lineage, RevokesAllOf;
    EverythingRevokedAt(After(start, run[..p]), run[p], u);
    AfterStep(start, run, p);
    if |run| == p + 1 {
      assert run[..p + 1] == run;
    } else {
      var front, e := run[..|run| - 1], run[|run| - 1];
      assert front[..p] == run[..p] && front[p] == run[p] && run == front + [e];
      ReplayCutsOff(start, front, p, u);
      CutOffStep(start, front, e, p, u);
    }
  }

  lemma CutOffStep(start: Store, front: seq<Event>, e: Event, p: nat, u: nat)
    requires Lineage(start.tokens) && p < |front|
    requires var n := |After(start, front[..p]).tokens|; var tokens := After(start, front).tokens;
      && n <= |tokens| && AllRevoked(tokens, u, n)
      && forall j :: n <= j < |tokens| && tokens[j].user == u ==> FreshSince(start, front, p, j)
    ensures var n := |After(start, front[..p]).tokens|; var tokens := After(start, front + [e]).tokens;
      && n <= |tokens| && AllRevoked(tokens, u, n)
      && forall j :: n <= j < |tokens| && tokens[j].user == u ==> FreshSince(start, front + [e], p, j)
  {
    var run, s := front + [e], After(start, front);
    assert run[..|front|] == front;
    RunKeepsLineage(start, front, p);
    RunKeepsLineage(start, run, |front|);
    NewToken(s, e.now, e.op);
    var n, tokens := |After(start, front[..p]).tokens|, After(start, run).tokens;
    forall j | n <= j < |tokens| && tokens[j].user == u
      ensures FreshSince(start, run, p, j)
    {
      if j < |s.tokens| {
        FreshStays(start, front, e, p, j);
      } else if e.op.Refresh? {
        var t := e.op.token;
        assert t >= n;
        FreshStays(start, front, e, p, t);
        var q :| p < q < |run| && FreshFrom(start, run, q, t);
        assert Descends(tokens, t, j);
        DescendsExtend(tokens, |After(start, run[..q]).tokens|, t, j);
        assert FreshFrom(start, run, q, j);
      } else {
        assert FreshFrom(start, run, |front|, j);
      }
    }
  }

  // ---- Lockout ----

  predicate Clock(run: seq<Event>) {
    forall i, j :: 0 <= i < j < |run| ==> run[i].now <= run[j].now
  }

  /** The password of `u` was verified and found wrong. */
  predicate WrongPassword(s: Store, e: Event, u: nat) {
    && e.op.Login?
    && FindUser(s.users, e.op.email) == Some(u)
    && !IsLocked(s.users[u], e.now)
    && s.users[u].password != e.op.password
  }

  /** `u` logged in, or confirmed a password reset. */
  predicate ClearsFailures(s: Store, e: Event, u: nat) {
    var r := Step(s, e.now, e.op).1;
    || (e.op.Login? && r.Issued? && FindUser(s.users, e.op.email) == Some(u))
    || (e.op.ConfirmReset? && r.Done? && s.resets[e.op.reset].user == u)
  }

  /** The times of the wrong verifications of `u` since the last login or reset. */
  function Failures(start: Store, run: seq<Event>, u: nat): seq<int> {
    if run == [] then []
    else
      var front, e := run[..|run| - 1], run[|run| - 1];
      var s := After(start, front);
      if WrongPassword(s, e, u) then Failures(start, front, u) + [e.now]
      else if ClearsFailures(s, e, u) then []
      else Failures(start, front, u)
  }

  predicate CountersInRange(s: Store) {
    forall u :: 0 <= u < |s.users| ==> 0 <= s.users[u].failedAttempts < LOCKOUT_THRESHOLD
  }

  /** The stored counter never reaches the threshold. */
  lemma CountersStayInRange(s: Store, now: int, op: Op)
    requires CountersInRange(s)
    ensures CountersInRange(Step(s, now, op).0)
  {
  }

  /** What the counter and the lock remember about the failures so far: the counter numbers those after
      the last one that locked the account, and they all came when that lock had ended. */
  predicate Remembers(u: User, fs: seq<int>, latest: int) {
    && 0 <= u.failedAttempts < LOCKOUT_THRESHOLD
    && (forall i :: 0 <= i < |fs| ==> fs[i] <= latest)
    && (forall i, j :: 0 <= i < j < |fs| ==> fs[i] <= fs[j])
    && (|fs| > u.failedAttempts ==> u.lockedUntil == Some(fs[|fs| - 1 - u.failedAttempts] + LOCKOUT_DURATION))
    && Spaced(fs)
  }

  /** Any six consecutive failures span at least the lockout. */
  predicate Spaced(fs: seq<int>) {
    forall i :: 0 <= i && i + 5 < |fs| ==> fs[i + 5] - fs[i] >= LOCKOUT_DURATION
  }

  lemma FailureStep(u: User, fs: seq<int>, latest: int, now: int)
    requires Remembers(u, fs, latest) && latest <= now && !IsLocked(u, now)
    ensures Remembers(CountFailure(u, now), fs + [now], now)
  {
    if |fs| >= 5 {
      assert fs[|fs| - 5] <= fs[|fs| - 1 - u.failedAttempts];
    }
  }

  /** The account of `u`, if it exists yet, remembers the failures of the run. */
  predicate Tracks(s: Store, u: nat, fs: seq<int>, run: seq<Event>) {
    if u < |s.users| && run != [] then Remembers(s.users[u], fs, run[|run| - 1].now) else fs == []
  }

  lemma RemembersLater(u: User, v: User, fs: seq<int>, latest: int, now: int)
    requires Remembers(u, fs, latest) && latest <= now
    requires v.failedAttempts == u.failedAttempts && v.lockedUntil == u.lockedUntil
    ensures Remembers(v, fs, now)
  {
  }

  lemma TracksStep(s: Store, u: nat, fs: seq<int>, run: seq<Event>, e: Event)
    requires Clock(run + [e]) && CountersInRange(s) && Tracks(s, u, fs, run)
    ensures Tracks(Step(s, e.now, e.op).0, u,
      if WrongPassword(s, e, u) then fs + [e.now] else if ClearsFailures(s, e, u) then [] else fs, run + [e])
  {
    hide Remembers, Step, CountFailure;
    var all := run + [e];
    assert all[|run|] == e && (run != [] ==> all[|run| - 1] == run[|run| - 1]);
    var after := Step(s, e.now, e.op).0;
    CountersStayInRange(s, e.now, e.op);
    if u < |after.users| { RemembersNothing(after.users[u], e.now); }
    if u < |s.users| {
      if run == [] { RemembersNothing(s.users[u], e.now); }
      var latest := if run == [] then e.now else run[|run| - 1].now;
      if WrongPassword(s, e, u) {
        FailureStep(s.users[u], fs, latest, e.now);
        WrongPasswordStep(s, e, u);
      } else if !ClearsFailures(s, e, u) {
        UntouchedAccount(s, e, u);
        RemembersLater(s.users[u], after.users[u], fs, latest, e.now);
      } else {
        UsersOnlyGrow(s, e);
      }
    }
  }

  lemma UsersOnlyGrow(s: Store, e: Event)
    ensures |Step(s, e.now, e.op).0.users| >= |s.users|
  {
  }

  lemma WrongPasswordStep(s: Store, e: Event, u: nat)
    requires WrongPassword(s, e, u)
    ensures Step(s, e.now, e.op).0.users == s.users[u := CountFailure(s.users[u], e.now)]
  {
  }

  lemma RemembersNothing(u: User, now: int)
    requires 0 <= u.failedAttempts < LOCKOUT_THRESHOLD
    ensures Remembers(u, [], now)
  {
  }

  /** Lockout spacing: in every run with a non-decreasing clock, any six consecutive wrong-password
      verifications of an account without a login or a reset between them span at least 15 minutes,
      and no stored counter reaches the threshold. */
  lemma {:induction false} LockoutSpacing(start: Store, run: seq<Event>, u: nat)
    requires Clock(run) && CountersInRange(start)
    ensures Spaced(Failures(start, run, u))
    ensures CountersInRange(After(start, run))
    ensures Tracks(After(start, run), u, Failures(start, run, u), run)
  {
    hide Step, WrongPassword, ClearsFailures;
    if run != [] {
      var front, e := run[..|run| - 1], run[|run| - 1];
      assert front + [e] == run;
      assert forall i :: 0 <= i < |front| ==> front[i] == run[i];
      LockoutSpacing(start, front, u);
      CountersStayInRange(After(start, front), e.now, e.op);
      TracksStep(After(start, front), u, Failures(start, front, u), front, e);
    }
  }

  /** Every other call leaves the counter and the lock of `u` alone. */
  lemma UntouchedAccount(s: Store, e: Event, u: nat)
    requires u < |s.users| && !WrongPassword(s, e, u) && !ClearsFailures(s, e, u)
    ensures var after := Step(s, e.now, e.op).0;
      && u < |after.users|
      && after.users[u].failedAttempts == s.users[u].failedAttempts
      && after.users[u].lockedUntil == s.users[u].lockedUntil
  {
  }

  // ---- Conflicting invitations ----

  predicate NoneRevoked(s: Store) {
    forall i :: 0 <= i < |s.invites| ==> !s.invites[i].status.Revoked?
  }

  /** The service marks a conflicting invitation as revoked, but the route leaves without a commit: in no run does
      an invitation ever become revoked. */
  lemma {:induction false} InvitationsNeverRevoked(start: Store, run: seq<Event>)
    requires NoneRevoked(start)
    ensures NoneRevoked(After(start, run))
  {
    if run != [] { InvitationsNeverRevoked(start, run[..|run| - 1]); }
  }

  const INVITED_TWICE := Store(60, [], [], [],
    [Invite("a@b", Pending, INVITATION_TTL, None), Invite("a@b", Pending, INVITATION_TTL, None)])

  const CONFLICT_RUN := [Event(0, IssueInvite("a@b")), Event(0, IssueInvite("a@b")),
                         Event(1, AcceptInvite(0, 7, true)), Event(2, AcceptInvite(1, 8, true))]

  lemma InvitedTwice()
    ensures After(Store(60, [], [], [], []), CONFLICT_RUN[..2]) == INVITED_TWICE
  {
    var start := Store(60, [], [], [], []);
    var one := start.(invites := [Invite("a@b", Pending, INVITATION_TTL, None)]);
    assert CONFLICT_RUN[..0] == [] && CONFLICT_RUN[..2][..1] == CONFLICT_RUN[..1];
    assert Invited(start, 0, "a@b").0 == one;
    AfterStep(start, CONFLICT_RUN, 0);
    AfterStep(start, CONFLICT_RUN, 1);
    assert Invited(one, 0, "a@b").0 == INVITED_TWICE;
  }

  lemma SecondAcceptance(s: Store)
    requires s == AcceptedInvite(INVITED_TWICE, 1, 0, 7, true).0
    ensures AcceptedInvite(s, 2, 1, 8, true) == (s, InvitationConflict)
    ensures s.invites[1].status == Pending
  {
    assert s.users == [User("a@b", 7, true, 0, None, None)];
    assert FindUser(s.users, "a@b") == Some(0) by { assert s.users[..0] == []; }
  }

  /** Two invitations to one address, both accepted: the second acceptance conflicts, and its invitation is as
      pending as before. */
  lemma ConflictLeavesPendingWitness()
    ensures var start := Store(60, [], [], [], []);
      && NoneRevoked(start)
      && OutcomeAt(start, CONFLICT_RUN, 3) == InvitationConflict
      && |After(start, CONFLICT_RUN).invites| == 2 && After(start, CONFLICT_RUN).invites[1].status == Pending
  {
    hide FindUser, AcceptedInvite;
    var start := Store(60, [], [], [], []);
    InvitedTwice();
    AfterStep(start, CONFLICT_RUN, 2);
    AfterStep(start, CONFLICT_RUN, 3);
    assert CONFLICT_RUN[..4] == CONFLICT_RUN;
    var s := AcceptedInvite(INVITED_TWICE, 1, 0, 7, true).0;
    SecondAcceptance(s);
    hide After;
    assert After(start, CONFLICT_RUN[..3]) == s;
    assert |s.invites| == 2 by { AcceptanceKeepsCount(); }
  }

  lemma AcceptanceKeepsCount()
    ensures |AcceptedInvite(INVITED_TWICE, 1, 0, 7, true).0.invites| == 2
  {
  }
}
