/** What the stored columns come to over runs: passwords, resets, invitations, tokens and locks. */
module AuthMeaning {
  import opened Auth
  import opened AuthLaws
  import opened Domain

  // ---- Accounts ----

  predicate DistinctEmails(users: seq<User>) {
    forall i, j :: 0 <= i < j < |users| ==> users[i].email != users[j].email
  }

  lemma {:induction false} FindUserExact(users: seq<User>, email: string)
    requires DistinctEmails(users)
    ensures forall u: nat :: u < |users| ==> (FindUser(users, email) == Some(u) <==> users[u].email == email)
    ensures FindUser(users, email).None? <==> forall u :: 0 <= u < |users| ==> users[u].email != email
  {
    if users != [] {
      var n := |users| - 1;
      FindUserExact(users[..n], email);
      assert forall u :: 0 <= u < n ==> users[..n][u] == users[u];
    }
  }

  /** The confirmed reset of `u`'s password, if the call is one. */
  predicate Resets(s: Store, e: Event, u: nat) {
    e.op.ConfirmReset? && e.op.reset < |s.resets| && s.resets[e.op.reset].user == u && Step(s, e.now, e.op).1.Done?
  }

  /** What a call does to the columns of an account that exists: the email stays; the password changes by a confirmed
      reset alone, to the one sent; the activity flag by its own call alone. */
  lemma AccountColumns(s: Store, e: Event, u: nat)
    requires u < |s.users|
    ensures var after := Step(s, e.now, e.op).0.users;
      && u < |after|
      && after[u].email == s.users[u].email
      && after[u].password == (if Resets(s, e, u) then e.op.password else s.users[u].password)
      && after[u].isActive == (if e.op.SetActive? && e.op.user == u then e.op.active else s.users[u].isActive)
  {
  }

  /** Accounts come from accepted invitations alone: one each, active and clean, with the invited email and the
      password sent. */
  lemma NewAccounts(s: Store, e: Event)
    ensures var (after, r) := Step(s, e.now, e.op);
      if e.op.AcceptInvite? && r.Issued? then
        && |after.users| == |s.users| + 1
        && e.op.invite < |s.invites|
        && after.users[|s.users|] == User(s.invites[e.op.invite].email, e.op.password, true, 0, None, None)
      else |after.users| == |s.users|
  {
  }

  lemma StepKeepsEmailsDistinct(s: Store, e: Event)
    requires DistinctEmails(s.users)
    ensures DistinctEmails(Step(s, e.now, e.op).0.users)
  {
    var after := Step(s, e.now, e.op).0.users;
    NewAccounts(s, e);
    if e.op.AcceptInvite? && e.op.invite < |s.invites| { FindUserExact(s.users, s.invites[e.op.invite].email); }
    forall i, j | 0 <= i < j < |after| ensures after[i].email != after[j].email {
      AccountColumns(s, e, i);
      if j < |s.users| { AccountColumns(s, e, j); }
    }
  }

  lemma {:induction false} RunKeepsEmailsDistinct(start: Store, run: seq<Event>)
    requires DistinctEmails(start.users)
    ensures DistinctEmails(After(start, run).users)
  {
    if run != [] {
      RunKeepsEmailsDistinct(start, run[..|run| - 1]);
      StepKeepsEmailsDistinct(After(start, run[..|run| - 1]), run[|run| - 1]);
    }
  }

  // ---- Login and the password ----

  /** A login succeeds exactly for an unlocked, active account with this email and this password; it then issues a
      fresh token to that account and notes the time. The other outcomes tell a lock before anything else, and
      inactivity only to those who know the password. */
  lemma LoginDecides(s: Store, now: int, email: string, password: Secret, u: nat)
    requires DistinctEmails(s.users) && u < |s.users| && s.users[u].email == email
    ensures var (after, r) := Step(s, now, Login(email, password));
      var locked := s.users[u].lockedUntil.Some? && s.users[u].lockedUntil.value > now;
      && (r.Issued? <==> !locked && s.users[u].password == password && s.users[u].isActive)
      && (r.AccountLocked? <==> locked)
      && (r.InvalidCredentials? <==> !locked && s.users[u].password != password)
      && (r.AccountInactive? <==> !locked && s.users[u].password == password && !s.users[u].isActive)
      && (r.Issued? ==>
           && r == Issued(|s.tokens|)
           && after.tokens == s.tokens + [Token(u, now, now + s.refreshTtl, None, None)]
           && u < |after.users| && after.users[u].lastLoginAt == Some(now))
  {
    FindUserExact(s.users, email);
  }

  /** An unknown email is answered like a wrong password, and neither a login nor a request with it changes anything. */
  lemma UnknownEmail(s: Store, now: int, email: string, password: Secret)
    requires DistinctEmails(s.users) && forall u :: 0 <= u < |s.users| ==> s.users[u].email != email
    ensures Step(s, now, Login(email, password)) == (s, InvalidCredentials)
    ensures Step(s, now, RequestReset(email)).0 == s
  {
    FindUserExact(s.users, email);
  }

  predicate ResetAt(start: Store, run: seq<Event>, i: nat, u: nat)
    requires i < |run|
  {
    Resets(After(start, run[..i]), run[i], u)
  }

  /** After a confirmed reset at `p`, and until the next one of that account, the stored password is the one sent. */
  lemma {:induction false} PasswordAfterReset(start: Store, run: seq<Event>, p: nat, u: nat)
    requires p < |run| && ResetAt(start, run, p, u) && u < |After(start, run[..p]).users|
    requires forall k :: p < k < |run| ==> !ResetAt(start, run, k, u)
    ensures u < |After(start, run).users| && After(start, run).users[u].password == run[p].op.password
  {
    hide Step, Resets;
    var front, e := run[..|run| - 1], run[|run| - 1];
    if p < |front| {
      assert front[..p] == run[..p];
      forall k | p < k < |front| ensures !ResetAt(start, front, k, u) {
        assert front[..k] == run[..k] && !ResetAt(start, run, k, u);
      }
      PasswordAfterReset(start, front, p, u);
      assert !ResetAt(start, run, |front|, u);
    }
    AccountColumns(After(start, front), e, u);
  }

  /** Through the login: from then on the account, active and unlocked, is entered exactly with the password sent with
      the reset, whatever the password was before. */
  lemma LoginAfterReset(start: Store, run: seq<Event>, p: nat, u: nat, now: int, password: Secret)
    requires DistinctEmails(start.users)
    requires p < |run| && ResetAt(start, run, p, u) && u < |After(start, run[..p]).users|
    requires forall k :: p < k < |run| ==> !ResetAt(start, run, k, u)
    ensures var s := After(start, run);
      && u < |s.users|
      && (s.users[u].isActive && !IsLocked(s.users[u], now) ==>
           (Step(s, now, Login(s.users[u].email, password)).1.Issued? <==> password == run[p].op.password))
  {
    hide Step, ResetAt, After;
    PasswordAfterReset(start, run, p, u);
    RunKeepsEmailsDistinct(start, run);
    var s := After(start, run);
    LoginDecides(s, now, s.users[u].email, password, u);
  }

  // ---- Resets ----

  /** What a call does to a reset row that exists: account and expiry stay, and only its own confirmation uses it. */
  lemma ResetColumns(s: Store, e: Event, i: nat)
    requires i < |s.resets|
    ensures var (after, r) := Step(s, e.now, e.op);
      && i < |after.resets|
      && after.resets[i].user == s.resets[i].user && after.resets[i].expiresAt == s.resets[i].expiresAt
      && after.resets[i].usedAt
         == (if e.op.ConfirmReset? && e.op.reset == i && r.Done? then Some(e.now) else s.resets[i].usedAt)
  {
  }

  /** A reset is confirmed exactly when it is unused, not expired, of an existing account, and the new password passes
      the policy. */
  lemma ResetDecides(s: Store, now: int, i: nat, password: Secret, policyOk: bool)
    ensures Step(s, now, ConfirmReset(i, password, policyOk)).1.Done?
       <==> i < |s.resets| && s.resets[i].usedAt.None? && now < s.resets[i].expiresAt && policyOk
            && s.resets[i].user < |s.users|
    ensures !Step(s, now, ConfirmReset(i, password, policyOk)).1.Done? ==>
      Step(s, now, ConfirmReset(i, password, policyOk))
      == (s, if i < |s.resets| && s.resets[i].usedAt.None? && now < s.resets[i].expiresAt && !policyOk
             then PasswordPolicy else InvalidToken)
  {
  }

  lemma {:induction false} UsedStays(start: Store, run: seq<Event>, i: nat, t: nat)
    requires i <= |run| && t < |After(start, run[..i]).resets| && After(start, run[..i]).resets[t].usedAt.Some?
    ensures t < |After(start, run).resets| && After(start, run).resets[t].usedAt.Some?
  {
    hide Step;
    if i == |run| {
      assert run[..i] == run;
    } else {
      var front := run[..|run| - 1];
      assert front[..i] == run[..i];
      UsedStays(start, front, i, t);
      ResetColumns(After(start, front), run[|run| - 1], t);
    }
  }

  /** In no run is the same reset confirmed twice. */
  lemma ResetConfirmedOnce(start: Store, run: seq<Event>, i: nat, j: nat, t: nat)
    requires i < j < |run|
    requires run[i].op.ConfirmReset? && run[i].op.reset == t && OutcomeAt(start, run, i).Done?
    requires run[j].op.ConfirmReset? && run[j].op.reset == t
    ensures !OutcomeAt(start, run, j).Done?
  {
    hide Step;
    var before := After(start, run[..i]);
    ResetDecides(before, run[i].now, t, run[i].op.password, run[i].op.policyOk);
    ResetColumns(before, run[i], t);
    AfterStep(start, run, i);
    assert run[..j][..i + 1] == run[..i + 1];
    UsedStays(start, run[..j], i + 1, t);
    ResetDecides(After(start, run[..j]), run[j].now, t, run[j].op.password, run[j].op.policyOk);
  }

  /** The request at `i` made the reset row `t`. */
  predicate Requested(start: Store, run: seq<Event>, i: nat, t: nat, reset: Reset)
    requires i < |run|
  {
    var s := After(start, run[..i]);
    && run[i].op.RequestReset?
    && FindUser(s.users, run[i].op.email) == Some(reset.user)
    && t == |s.resets|
    && reset.expiresAt == run[i].now + 3600
  }

  lemma NewResets(s: Store, e: Event)
    ensures var after := Step(s, e.now, e.op).0.resets;
      if e.op.RequestReset? && FindUser(s.users, e.op.email).Some? then
        after == s.resets + [Reset(FindUser(s.users, e.op.email).value, e.now + 3600, None)]
      else |after| == |s.resets|
  {
  }

  /** Every reset row goes back to a request for the email of its account, an hour before its expiry. */
  lemma {:induction false} ResetOrigin(start: Store, run: seq<Event>, t: nat)
    requires start.resets == [] && t < |After(start, run).resets|
    ensures exists i :: 0 <= i < |run| && Requested(start, run, i, t, After(start, run).resets[t])
  {
    hide Step, FindUser;
    var front, e := run[..|run| - 1], run[|run| - 1];
    var s := After(start, front);
    NewResets(s, e);
    if t < |s.resets| {
      ResetOrigin(start, front, t);
      ResetColumns(s, e, t);
      var i :| 0 <= i < |front| && Requested(start, front, i, t, s.resets[t]);
      assert front[..i] == run[..i];
      assert Requested(start, run, i, t, After(start, run).resets[t]);
    } else {
      assert Requested(start, run, |front|, t, After(start, run).resets[t]);
    }
  }

  /** So a password is only ever reset within an hour of a request for that account. */
  lemma ResetWithinHour(start: Store, run: seq<Event>, j: nat, u: nat)
    requires start.resets == [] && j < |run| && ResetAt(start, run, j, u)
    ensures exists i :: 0 <= i < j && run[i].op.RequestReset? && run[j].now < run[i].now + 3600
                     && FindUser(After(start, run[..i]).users, run[i].op.email) == Some(u)
  {
    hide Step, FindUser;
    var s := After(start, run[..j]);
    ResetDecides(s, run[j].now, run[j].op.reset, run[j].op.password, run[j].op.policyOk);
    ResetOrigin(start, run[..j], run[j].op.reset);
    var i :| 0 <= i < j && Requested(start, run[..j], i, run[j].op.reset, s.resets[run[j].op.reset]);
    assert run[..j][..i] == run[..i] && run[..j][i] == run[i];
  }

  // ---- Invitations ----

  /** An invitation row keeps its email and expiry, and is accepted by its own acceptance alone. */
  lemma InviteColumns(s: Store, e: Event, i: nat)
    requires i < |s.invites|
    ensures var (after, r) := Step(s, e.now, e.op);
      && i < |after.invites|
      && after.invites[i]
         == (if e.op.AcceptInvite? && e.op.invite == i && r.Issued?
             then Invite(s.invites[i].email, InviteStatus.Accepted, s.invites[i].expiresAt, Some(e.now))
             else s.invites[i])
  {
  }

  lemma NewInvites(s: Store, e: Event)
    ensures var (after, r) := Step(s, e.now, e.op);
      if e.op.IssueInvite? && FindUser(s.users, e.op.email).None? then
        r.Done? && after.invites == s.invites + [Invite(e.op.email, Pending, e.now + 7 * 86400, None)]
      else |after.invites| == |s.invites| && (e.op.IssueInvite? ==> (after, r) == (s, InvitationConflict))
  {
  }

  /** An acceptance succeeds exactly for a pending, unexpired invitation of an unregistered email and a good password;
      otherwise it changes nothing. */
  lemma AcceptanceDecides(s: Store, now: int, i: nat, password: Secret, policyOk: bool)
    ensures var (after, r) := Step(s, now, AcceptInvite(i, password, policyOk));
      && (r.Issued? <==> i < |s.invites| && s.invites[i].status == Pending && now < s.invites[i].expiresAt
                         && policyOk && FindUser(s.users, s.invites[i].email).None?)
      && (!r.Issued? ==> after == s)
      && (i >= |s.invites| || s.invites[i].status != Pending || s.invites[i].expiresAt <= now ==> r == InvalidToken)
      && (i < |s.invites| && s.invites[i].status == Pending && now < s.invites[i].expiresAt && !r.Issued? ==>
           r == if policyOk then InvitationConflict else PasswordPolicy)
      && (r.Issued? ==> r == Issued(|s.tokens|)
                        && after.tokens == s.tokens + [Token(|s.users|, now, now + s.refreshTtl, None, None)])
  {
  }

  predicate InvitedAt(run: seq<Event>, i: nat, invite: Invite)
    requires i < |run|
  {
    run[i].op == IssueInvite(invite.email) && invite.expiresAt == run[i].now + 7 * 86400
  }

  lemma {:induction false} InviteOrigin(start: Store, run: seq<Event>, t: nat)
    requires start.invites == [] && t < |After(start, run).invites|
    ensures exists i :: 0 <= i < |run| && InvitedAt(run, i, After(start, run).invites[t])
  {
    hide Step, FindUser;
    var front, e := run[..|run| - 1], run[|run| - 1];
    var s := After(start, front);
    NewInvites(s, e);
    if t < |s.invites| {
      InviteOrigin(start, front, t);
      InviteColumns(s, e, t);
      var i :| 0 <= i < |front| && InvitedAt(front, i, s.invites[t]);
      assert InvitedAt(run, i, After(start, run).invites[t]);
    } else {
      assert InvitedAt(run, |front|, After(start, run).invites[t]);
    }
  }

  /** Whoever joins was invited, by this email, within the week before. */
  lemma JoinedWithinWeek(start: Store, run: seq<Event>, j: nat)
    requires start.invites == [] && j < |run| && run[j].op.AcceptInvite? && OutcomeAt(start, run, j).Issued?
    ensures var users, joined := After(start, run[..j]).users, After(start, run[..j + 1]).users;
      && |joined| == |users| + 1
      && exists i :: 0 <= i < j && run[i].op == IssueInvite(joined[|users|].email) && run[j].now < run[i].now + 7 * 86400
  {
    hide Step, FindUser;
    var s := After(start, run[..j]);
    AfterStep(start, run, j);
    AcceptanceDecides(s, run[j].now, run[j].op.invite, run[j].op.password, run[j].op.policyOk);
    NewAccounts(s, run[j]);
    InviteOrigin(start, run[..j], run[j].op.invite);
    var i :| 0 <= i < j && InvitedAt(run[..j], i, s.invites[run[j].op.invite]);
    assert run[..j][i] == run[i];
  }

  // ---- Tokens ----

  /** A refresh succeeds exactly with an unexpired, unrevoked token of an active account; presenting an unexpired
      revoked one is a replay, anything else an invalid token. A success issues one fresh token to the same account,
      and revokes the presented one now, with a link to the fresh one; no other token changes. */
  lemma RefreshDecides(s: Store, now: int, t: nat)
    ensures var (after, r) := Step(s, now, Refresh(t));
      && (r.Issued? <==> t < |s.tokens| && now < s.tokens[t].expiresAt && s.tokens[t].revokedAt.None?
                         && s.tokens[t].user < |s.users| && s.users[s.tokens[t].user].isActive)
      && (r.ReplayDetected? <==> t < |s.tokens| && now < s.tokens[t].expiresAt && s.tokens[t].revokedAt.Some?)
      && (r.Issued? || r.ReplayDetected? || (r == InvalidToken && after == s))
      && (r.Issued? ==>
           && r == Issued(|s.tokens|)
           && |after.tokens| == |s.tokens| + 1
           && after.tokens[|s.tokens|] == Token(s.tokens[t].user, now, now + s.refreshTtl, None, None)
           && after.tokens[t] == Token(s.tokens[t].user, s.tokens[t].issuedAt, s.tokens[t].expiresAt, Some(now), Some(|s.tokens|))
           && forall i :: 0 <= i < |s.tokens| && i != t ==> after.tokens[i] == s.tokens[i])
      && after.users == s.users && after.resets == s.resets && after.invites == s.invites
  {
  }

  /** A token that a call revokes is revoked at the time of the call. */
  lemma RevokedNow(s: Store, e: Event, t: nat)
    requires t < |s.tokens| && s.tokens[t].revokedAt.None?
    requires t < |Step(s, e.now, e.op).0.tokens| && Step(s, e.now, e.op).0.tokens[t].revokedAt.Some?
    ensures Step(s, e.now, e.op).0.tokens[t].revokedAt == Some(e.now)
  {
  }

  // ---- Locks ----

  /** Counter and lock as a function of the wrong passwords since the last login or reset: every fifth locks for
      fifteen minutes. */
  predicate CountsFailures(u: User, fs: seq<int>) {
    && u.failedAttempts == |fs| % 5
    && u.lockedUntil == if |fs| < 5 then None else Some(fs[|fs| - 1 - |fs| % 5] + 15 * 60)
  }

  lemma CountOneMore(u: User, fs: seq<int>, now: int)
    requires CountsFailures(u, fs)
    ensures CountsFailures(CountFailure(u, now), fs + [now])
  {
    assert |fs + [now]| % 5 == if |fs| % 5 == 4 then 0 else |fs| % 5 + 1;
  }

  lemma {:induction false} NoAccountNoFailures(start: Store, run: seq<Event>, u: nat)
    requires u >= |After(start, run).users|
    ensures Failures(start, run, u) == []
  {
    if run != [] {
      var front := run[..|run| - 1];
      UsersOnlyGrow(After(start, front), run[|run| - 1]);
      NoAccountNoFailures(start, front, u);
    }
  }

  lemma ClearedAccount(s: Store, e: Event, u: nat)
    requires u < |s.users| && ClearsFailures(s, e, u)
    ensures var after := Step(s, e.now, e.op).0.users;
      u < |after| && after[u].failedAttempts == 0 && after[u].lockedUntil.None?
  {
  }

  /** An account is locked exactly for fifteen minutes from every fifth wrong password in a row. */
  lemma {:induction false} LockoutExactly(start: Store, run: seq<Event>, u: nat)
    requires start.users == [] && u < |After(start, run).users|
    ensures CountsFailures(After(start, run).users[u], Failures(start, run, u))
  {
    hide Step, WrongPassword, ClearsFailures, CountsFailures;
    var front, e := run[..|run| - 1], run[|run| - 1];
    var s, fs := After(start, front), Failures(start, front, u);
    if u < |s.users| {
      LockoutExactly(start, front, u);
      if WrongPassword(s, e, u) {
        CountOneMore(s.users[u], fs, e.now);
        WrongPasswordStep(s, e, u);
      } else if ClearsFailures(s, e, u) {
        ClearedAccount(s, e, u);
        CleanCounts(After(start, run).users[u]);
      } else {
        UntouchedAccount(s, e, u);
        SameCounts(s.users[u], After(start, run).users[u], fs);
      }
    } else {
      NoAccountNoFailures(start, front, u);
      NewAccounts(s, e);
      NotYetThere(s, e, u);
      CleanCounts(After(start, run).users[u]);
    }
  }

  lemma NotYetThere(s: Store, e: Event, u: nat)
    requires u >= |s.users|
    ensures !WrongPassword(s, e, u)
  {
  }

  lemma CleanCounts(u: User)
    requires u.failedAttempts == 0 && u.lockedUntil.None?
    ensures CountsFailures(u, [])
  {
  }

  lemma SameCounts(u: User, v: User, fs: seq<int>)
    requires CountsFailures(u, fs) && v.failedAttempts == u.failedAttempts && v.lockedUntil == u.lockedUntil
    ensures CountsFailures(v, fs)
  {
  }
}
