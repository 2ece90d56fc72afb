/** Refresh-token rotation, replay handling, lockout and password reset over stored rows.
    Rows are only ever appended, so a row's id is its position; times are seconds. */
module Auth {
  import opened Domain

  const LOCKOUT_THRESHOLD := 5
  const LOCKOUT_DURATION := 900
  const INVITATION_TTL := 604800
  const PASSWORD_RESET_TTL := 3600

  /** Hashes are injective here, so a stored hash is the secret itself. */
  type Secret = nat

  datatype User = User(
    email: string,
    password: Secret,
    isActive: bool,
    failedAttempts: int,
    lockedUntil: Option<int>,
    lastLoginAt: Option<int>)

  datatype Token = Token(
    user: nat,
    issuedAt: int,
    expiresAt: int,
    revokedAt: Option<int>,
    replacedBy: Option<nat>)

  datatype Reset = Reset(user: nat, expiresAt: int, usedAt: Option<int>)

  datatype InviteStatus = Pending | Accepted | Revoked | Expired

  datatype Invite = Invite(email: string, status: InviteStatus, expiresAt: int, acceptedAt: Option<int>)

  datatype Store = Store(
    refreshTtl: int,
    users: seq<User>,
    tokens: seq<Token>,
    resets: seq<Reset>,
    invites: seq<Invite>)

  /** What a call returns or raises. */
  datatype Outcome =
    | Done
    | Issued(token: nat)
    | InvalidCredentials
    | AccountLocked
    | AccountInactive
    | InvalidToken
    | ReplayDetected
    | InvitationConflict
    | PasswordPolicy

  function FindUser(users: seq<User>, email: string): (r: Option<nat>)
    ensures r.Some? ==> r.value < |users| && users[r.value].email == email
  {
    if users == [] then None
    else
      var front := FindUser(users[..|users| - 1], email);
      if front.Some? then front
      else if users[|users| - 1].email == email then Some(|users| - 1) else None
  }

  // ---- The calls, as functions on the store ----

  function Issue(s: Store, now: int, user: nat): Store {
    s.(tokens := s.tokens + [Token(user, now, now + s.refreshTtl, None, None)])
  }

  function RevokedToken(t: Token, user: nat, now: int): Token {
    if t.user == user && t.revokedAt.None? then t.(revokedAt := Some(now)) else t
  }

  function RevokeAll(tokens: seq<Token>, user: nat, now: int): (r: seq<Token>)
    ensures |r| == |tokens|
  {
    seq(|tokens|, i requires 0 <= i < |tokens| => RevokedToken(tokens[i], user, now))
  }

  predicate IsLocked(u: User, now: int) {
    u.lockedUntil.Some? && u.lockedUntil.value > now
  }

  function CountFailure(u: User, now: int): User {
    if u.failedAttempts + 1 >= LOCKOUT_THRESHOLD then
      u.(lockedUntil := Some(now + LOCKOUT_DURATION), failedAttempts := 0)
    else u.(failedAttempts := u.failedAttempts + 1)
  }

  function Authenticated(s: Store, now: int, email: string, password: Secret): (Store, Outcome) {
    var found := FindUser(s.users, email);
    if found.None? then (s, InvalidCredentials)
    else
      var id := found.value;
      var u := s.users[id];
      if IsLocked(u, now) then (s, AccountLocked)
      else if u.password != password then (s.(users := s.users[id := CountFailure(u, now)]), InvalidCredentials)
      else if !u.isActive then (s, AccountInactive)
      else (s.(users := s.users[id := u.(failedAttempts := 0, lockedUntil := None, lastLoginAt := Some(now))]), Done)
  }

  /** The login route: authenticate, then issue. */
  function LoggedIn(s: Store, now: int, email: string, password: Secret): (Store, Outcome) {
    var (s1, r) := Authenticated(s, now, email, password);
    if r.Done? then (Issue(s1, now, FindUser(s.users, email).GetOr(0)), Issued(|s1.tokens|)) else (s1, r)
  }

  function Rotated(s: Store, now: int, t: nat): (Store, Outcome) {
    if t >= |s.tokens| || s.tokens[t].expiresAt <= now then (s, InvalidToken)
    else if s.tokens[t].revokedAt.Some? then
      (s.(tokens := RevokeAll(s.tokens, s.tokens[t].user, now)), ReplayDetected)
    else
      var user := s.tokens[t].user;
      if user >= |s.users| || !s.users[user].isActive then (s, InvalidToken)
      else
        var s1 := Issue(s, now, user);
        (s1.(tokens := s1.tokens[t := s1.tokens[t].(revokedAt := Some(now), replacedBy := Some(|s.tokens|))]),
         Issued(|s.tokens|))
  }

  function LoggedOut(s: Store, now: int, t: nat): Store {
    if t < |s.tokens| && s.tokens[t].revokedAt.None? then
      s.(tokens := s.tokens[t := s.tokens[t].(revokedAt := Some(now))])
    else s
  }

  function Invited(s: Store, now: int, email: string): (Store, Outcome) {
    if FindUser(s.users, email).Some? then (s, InvitationConflict)
    else (s.(invites := s.invites + [Invite(email, Pending, now + INVITATION_TTL, None)]), Done)
  }

  /** The acceptance route. A conflict is raised before anything is committed. */
  function AcceptedInvite(s: Store, now: int, i: nat, password: Secret, policyOk: bool): (Store, Outcome) {
    if i >= |s.invites| || !s.invites[i].status.Pending? || s.invites[i].expiresAt <= now then (s, InvalidToken)
    else if !policyOk then (s, PasswordPolicy)
    else if FindUser(s.users, s.invites[i].email).Some? then (s, InvitationConflict)
    else
      var s1 := s.(users := s.users + [User(s.invites[i].email, password, true, 0, None, None)],
                   invites := s.invites[i := s.invites[i].(status := InviteStatus.Accepted, acceptedAt := Some(now))]);
      (Issue(s1, now, |s.users|), Issued(|s.tokens|))
  }

  function ResetRequested(s: Store, now: int, email: string): Store {
    var found := FindUser(s.users, email);
    if found.None? then s
    else s.(resets := s.resets + [Reset(found.value, now + PASSWORD_RESET_TTL, None)])
  }

  function ResetConfirmed(s: Store, now: int, i: nat, password: Secret, policyOk: bool): (Store, Outcome) {
    if i >= |s.resets| || s.resets[i].usedAt.Some? || s.resets[i].expiresAt <= now then (s, InvalidToken)
    else if !policyOk then (s, PasswordPolicy)
    else
      var user := s.resets[i].user;
      if user >= |s.users| then (s, InvalidToken)
      else
        (s.(users := s.users[user := s.users[user].(password := password, failedAttempts := 0, lockedUntil := None)],
            resets := s.resets[i := s.resets[i].(usedAt := Some(now))],
            tokens := RevokeAll(s.tokens, user, now)),
         Done)
  }

  datatype Op =
    | Login(email: string, password: Secret)
    | Refresh(token: nat)
    | Logout(token: nat)
    | IssueInvite(email: string)
    | AcceptInvite(invite: nat, password: Secret, policyOk: bool)
    | RequestReset(email: string)
    | ConfirmReset(reset: nat, password: Secret, policyOk: bool)
    | SetActive(user: nat, active: bool)

  function Step(s: Store, now: int, op: Op): (Store, Outcome) {
    match op
    case Login(email, password) => LoggedIn(s, now, email, password)
    case Refresh(t) => Rotated(s, now, t)
    case Logout(t) => (LoggedOut(s, now, t), Done)
    case IssueInvite(email) => Invited(s, now, email)
    case AcceptInvite(i, password, ok) => AcceptedInvite(s, now, i, password, ok)
    case RequestReset(email) => (ResetRequested(s, now, email), Done)
    case ConfirmReset(i, password, ok) => ResetConfirmed(s, now, i, password, ok)
    case SetActive(u, active) =>
      if u < |s.users| then (s.(users := s.users[u := s.users[u].(isActive := active)]), Done) else (s, Done)
  }

  // ---- The service itself ----

  class AuthService {
    const refreshTtl: int
    var users: seq<User>
    var tokens: seq<Token>
    var resets: seq<Reset>
    var invites: seq<Invite>

    constructor (refreshTtl: int)
      ensures State() == Store(refreshTtl, [], [], [], [])
    {
      this.refreshTtl := refreshTtl;
      users, tokens, resets, invites := [], [], [], [];
    }

    ghost function State(): Store
      reads this
    {
      Store(refreshTtl, users, tokens, resets, invites)
    }

    method IssueRefreshToken(now: int, user: nat) returns (id: nat)
      modifies this`tokens
      ensures State() == Issue(old(State()), now, user) && id == |old(tokens)|
    {
      id := |tokens|;
      tokens := tokens + [Token(user, now, now + refreshTtl, None, None)];
    }

    method RevokeAllForUser(now: int, user: nat)
      modifies this`tokens
      ensures tokens == RevokeAll(old(tokens), user, now)
    {
      var n := |tokens|;
      for i := 0 to n
        invariant |tokens| == n == |old(tokens)|
        invariant forall k :: 0 <= k < i ==> tokens[k] == RevokedToken(old(tokens)[k], user, now)
        invariant forall k :: i <= k < n ==> tokens[k] == old(tokens)[k]
      {
        if tokens[i].user == user && tokens[i].revokedAt.None? {
          tokens := tokens[i := tokens[i].(revokedAt := Some(now))];
        }
      }
    }

    method RotateRefreshToken(now: int, presented: nat) returns (r: Outcome)
      modifies this`tokens
      ensures (State(), r) == Rotated(old(State()), now, presented)
    {
      if presented >= |tokens| || tokens[presented].expiresAt <= now {
        return InvalidToken;
      }
      var existing := tokens[presented];
      if existing.revokedAt.Some? {
        RevokeAllForUser(now, existing.user);
        return ReplayDetected;
      }
      if existing.user >= |users| || !users[existing.user].isActive {
        return InvalidToken;
      }
      var new_ := IssueRefreshToken(now, existing.user);
      tokens := tokens[presented := existing.(revokedAt := Some(now), replacedBy := Some(new_))];
      r := Issued(new_);
    }

    method RevokeRefreshToken(now: int, presented: nat)
      modifies this`tokens
      ensures State() == LoggedOut(old(State()), now, presented)
    {
      if presented < |tokens| && tokens[presented].revokedAt.None? {
        tokens := tokens[presented := tokens[presented].(revokedAt := Some(now))];
      }
    }

    method Authenticate(now: int, email: string, password: Secret) returns (r: Outcome)
      modifies this`users
      ensures (State(), r) == Authenticated(old(State()), now, email, password)
    {
      var found := FindUser(users, email);
      if found.None? {
        return InvalidCredentials;
      }
      var id, user := found.value, users[found.value];
      if user.lockedUntil.Some? && user.lockedUntil.value > now {
        return AccountLocked;
      }
      if user.password != password {
        user := user.(failedAttempts := user.failedAttempts + 1);
        if user.failedAttempts >= LOCKOUT_THRESHOLD {
          user := user.(lockedUntil := Some(now + LOCKOUT_DURATION));
          user := user.(failedAttempts := 0);
        }
        users := users[id := user];
        return InvalidCredentials;
      }
      if !user.isActive {
        return AccountInactive;
      }
      users := users[id := user.(failedAttempts := 0, lockedUntil := None, lastLoginAt := Some(now))];
      r := Done;
    }

    method LoginRoute(now: int, email: string, password: Secret) returns (r: Outcome)
      modifies this`users, this`tokens
      ensures (State(), r) == LoggedIn(old(State()), now, email, password)
    {
      var found := FindUser(users, email);
      r := Authenticate(now, email, password);
      if r.Done? {
        var id := IssueRefreshToken(now, found.value);
        r := Issued(id);
      }
    }

    method AcceptInvitationRoute(now: int, invite: nat, password: Secret, policyOk: bool) returns (r: Outcome)
      modifies this`users, this`tokens, this`invites
      ensures (State(), r) == AcceptedInvite(old(State()), now, invite, password, policyOk)
    {
      if invite >= |invites| || !invites[invite].status.Pending? || invites[invite].expiresAt <= now {
        return InvalidToken;
      }
      if !policyOk {
        return PasswordPolicy;
      }
      if FindUser(users, invites[invite].email).Some? {
        return InvitationConflict;
      }
      var id := |users|;
      users := users + [User(invites[invite].email, password, true, 0, None, None)];
      invites := invites[invite := invites[invite].(status := InviteStatus.Accepted, acceptedAt := Some(now))];
      var token := IssueRefreshToken(now, id);
      r := Issued(token);
    }

    method RequestPasswordReset(now: int, email: string)
      modifies this`resets
      ensures State() == ResetRequested(old(State()), now, email)
    {
      var found := FindUser(users, email);
      if found.Some? {
        resets := resets + [Reset(found.value, now + PASSWORD_RESET_TTL, None)];
      }
    }

    method ConfirmPasswordReset(now: int, reset: nat, password: Secret, policyOk: bool) returns (r: Outcome)
      modifies this`users, this`tokens, this`resets
      ensures (State(), r) == ResetConfirmed(old(State()), now, reset, password, policyOk)
    {
      if reset >= |resets| || resets[reset].usedAt.Some? || resets[reset].expiresAt <= now {
        return InvalidToken;
      }
      if !policyOk {
        return PasswordPolicy;
      }
      var id := resets[reset].user;
      if id >= |users| {
        return InvalidToken;
      }
      users := users[id := users[id].(password := password, failedAttempts := 0, lockedUntil := None)];
      resets := resets[reset := resets[reset].(usedAt := Some(now))];
      RevokeAllForUser(now, id);
      r := Done;
    }
  }
}
