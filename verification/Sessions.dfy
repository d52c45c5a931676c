/** Local users, their login sessions, and what a session token resolves to over time. */
module Sessions {
  import opened Outcomes
  import opened Tables
  import opened Throttle

  type Digest = string

  datatype User = User(id: string, username: string, passwordHash: string, disabled: bool)
  datatype Session = Session(userId: string, expiresAt: int, lastSeenAt: int)
  datatype State = State(users: seq<User>, sessions: map<Digest, Session>)

  const MIN_PASSWORD_LENGTH := 8

  datatype Settings = Settings(sessionTtl: int, hash: string -> string, verify: (string, string) -> bool)

  function IndexById(users: seq<User>, id: string): nat {
    FirstIndex(users, (u: User) => u.id == id)
  }

  function IndexByName(users: seq<User>, username: string): nat {
    FirstIndex(users, (u: User) => u.username == username)
  }

  /** A user who exists and is not disabled. */
  predicate Active(users: seq<User>, id: string) {
    var i := IndexById(users, id);
    i < |users| && !users[i].disabled
  }

  // ----- the operations, each one transaction

  datatype Op =
    | AdminSetUser(user: User, now: int)                                            // create, enable or disable
    | CreateSession(digest: Digest, userId: string, now: int)
    | SetPassword(username: string, password: string, keep: Option<Digest>, now: int)
    | ResolveToken(digest: Digest, now: int)
    | RevokeToken(digest: Digest, now: int)
    | PurgeExpired(now: int)

  datatype PasswordError = InvalidPassword | UnknownUser | UserDisabled

  /** The id of the user whose password a call changes, or why it is refused. */
  function PasswordTarget(users: seq<User>, username: string, password: string): Result<nat, PasswordError> {
    if |password| < MIN_PASSWORD_LENGTH then Err(InvalidPassword)
    else
      var i := IndexByName(users, username);
      if i == |users| then Err(UnknownUser)
      else if users[i].disabled then Err(UserDisabled)
      else Ok(i)
  }

  /** The sessions of a user other than the kept one. */
  predicate Dropped(sessions: map<Digest, Session>, d: Digest, userId: string, keep: Option<Digest>)
    requires d in sessions
  {
    sessions[d].userId == userId && keep != Some(d)
  }

  function UsersAfter(users: seq<User>, op: Op, settings: Settings): seq<User> {
    match op
    case AdminSetUser(user, _) =>
      var i := IndexById(users, user.id);
      if i == |users| then users + [user] else users[i := user]
    case SetPassword(username, password, _, _) =>
      var target := PasswordTarget(users, username, password);
      if target.Ok? then users[target.value := users[target.value].(passwordHash := settings.hash(password))] else users
    case _ => users
  }

  function SessionsAfter(s: State, op: Op, settings: Settings): map<Digest, Session> {
    match op
    case AdminSetUser(_, _) => s.sessions
    case CreateSession(digest, userId, now) =>
      if IndexById(s.users, userId) == |s.users| || digest in s.sessions then s.sessions     // key violation
      else s.sessions[digest := Session(userId, now + settings.sessionTtl, now)]
    case SetPassword(username, password, keep, _) =>
      var target := PasswordTarget(s.users, username, password);
      if target.Err? then s.sessions
      else s.sessions - (set d | d in s.sessions && Dropped(s.sessions, d, s.users[target.value].id, keep))
    case ResolveToken(digest, now) =>
      if digest !in s.sessions then s.sessions
      else if s.sessions[digest].expiresAt <= now || !Active(s.users, s.sessions[digest].userId) then s.sessions - {digest}
      else s.sessions[digest := s.sessions[digest].(lastSeenAt := now)]
    case RevokeToken(digest, _) => s.sessions - {digest}
    case PurgeExpired(now) => s.sessions - (set d | d in s.sessions && s.sessions[d].expiresAt <= now)
  }

  function Next(s: State, op: Op, settings: Settings): State {
    State(UsersAfter(s.users, op, settings), SessionsAfter(s, op, settings))
  }

  /** The user a token stands for, if any. */
  function Answer(s: State, digest: Digest, now: int): Option<string> {
    if digest in s.sessions && s.sessions[digest].expiresAt > now && Active(s.users, s.sessions[digest].userId)
    then Some(s.sessions[digest].userId) else None
  }

  class AuthService {
    const settings: Settings
    const throttle: AttemptThrottle
    var users: seq<User>
    var sessions: map<Digest, Session>

    ghost function View(): State reads this { State(users, sessions) }

    constructor (settings: Settings, throttle: AttemptThrottle)
      ensures View() == State([], map[]) && this.settings == settings && this.throttle == throttle
    {
      this.settings, this.throttle := settings, throttle;
      users, sessions := [], map[];
    }

    method SetPasswordOf(username: string, password: string, keep: Option<Digest>, ghost now: int)
      returns (error: Option<PasswordError>)
      modifies this
      ensures View() == Next(old(View()), SetPassword(username, password, keep, now), settings)
      ensures var target := PasswordTarget(old(users), username, password);
              error == if target.Ok? then None else Some(target.error)
      // the same, over the rows
      ensures error == Some(InvalidPassword) <==> |password| < 8
      ensures error == Some(UnknownUser) <==> |password| >= 8 && forall u :: u in old(users) ==> u.username != username
      ensures error == Some(UserDisabled) <==> |password| >= 8 && exists i: nat :: Named(old(users), username, i) && old(users)[i].disabled
      ensures error == None ==> Rehashed(old(users), users, username, settings.hash(password))
      ensures error != None ==> users == old(users) && sessions == old(sessions)
      ensures error == None ==> forall i: nat :: Named(old(users), username, i) ==> OnlyKept(old(sessions), sessions, old(users)[i].id, keep)
    {
      PasswordRows(View(), username, password, keep, now, settings);
      NamedIsIndex(users, username);
      if |password| < MIN_PASSWORD_LENGTH { return Some(InvalidPassword); }
      var i := IndexByName(users, username);
      if i == |users| { return Some(UnknownUser); }
      if users[i].disabled { return Some(UserDisabled); }
      var id := users[i].id;
      users := users[i := users[i].(passwordHash := settings.hash(password))];
      sessions := sessions - (set d | d in sessions && Dropped(sessions, d, id, keep));
      return None;
    }

    method Create(digest: Digest, userId: string, now: int) returns (created: bool)
      modifies this`sessions
      ensures View() == Next(old(View()), CreateSession(digest, userId, now), settings)
      ensures created <==> IndexById(users, userId) < |users| && digest !in old(sessions)
    {
      created := IndexById(users, userId) < |users| && digest !in sessions;
      if created {
        sessions := sessions[digest := Session(userId, now + settings.sessionTtl, now)];
      }
    }

    method Resolve(token: Option<Digest>, now: int) returns (user: Option<string>)
      modifies this`sessions
      ensures token.Some? ==> View() == Next(old(View()), ResolveToken(token.value, now), settings)
      ensures token.Some? ==> user == Answer(old(View()), token.value, now)
      ensures token.None? ==> View() == old(View()) && user == None
    {
      if token.None? { return None; }
      var digest := token.value;
      if digest !in sessions { return None; }
      var model := sessions[digest];
      if model.expiresAt <= now || !Active(users, model.userId) {
        sessions := sessions - {digest};
        return None;
      }
      sessions := sessions[digest := model.(lastSeenAt := now)];
      return Some(model.userId);
    }

    method Revoke(token: Option<Digest>, ghost now: int)
      modifies this`sessions
      ensures View() == if token.None? then old(View()) else Next(old(View()), RevokeToken(token.value, now), settings)
    {
      if token.Some? { sessions := sessions - {token.value}; }
    }

    method Purge(now: int) returns (purged: nat)
      modifies this`sessions
      ensures View() == Next(old(View()), PurgeExpired(now), settings)
      ensures purged == |old(sessions)| - |sessions|
    {
      var kept := sessions - (set d | d in sessions && sessions[d].expiresAt <= now);
      assert kept.Keys <= sessions.Keys;
      SubsetSize(kept.Keys, sessions.Keys);
      purged := |sessions| - |kept|;
      sessions := kept;
    }

    /** Changes a password behind the throttle; the throttle is keyed by the user's id. */
    method ChangePassword(userId: string, username: string, current: string, password: string, keep: Option<Digest>,
                          asked: real, answered: real, ghost now: int) returns (changed: bool)
      requires throttle.Valid() && throttle.ClockAt(asked) && asked <= answered
      modifies this, throttle
      ensures throttle.Valid()
      ensures var blocked := |Recent(History(old(throttle.log), userId), asked, throttle.window)| >= throttle.maxFailures;
              var outcome := ChangeOutcome(old(users), settings, userId, username, current, password);
              && throttle.log == Extend(old(throttle.log) + [Check(userId, asked)],
                                        Report(Attempt(userId, asked, answered, outcome), blocked))
              && (changed <==> !blocked && outcome.Changed?)
              && View() == if changed then Next(old(View()), SetPassword(username, password, keep, now), settings)
                           else old(View())
      // the same, over the rows
      ensures var blocked := |Recent(History(old(throttle.log), userId), asked, throttle.window)| >= throttle.maxFailures;
              && (changed <==> !blocked && |password| >= 8 && HoldsPassword(old(users), userId, username, current, settings))
              && throttle.log == old(throttle.log) + [Check(userId, asked)] +
                   (if blocked then []
                    else if !HoldsPassword(old(users), userId, username, current, settings) then [Fail(userId, answered)]
                    else if |password| < 8 then []
                    else [Clear(userId, answered)])
      ensures if changed then
                Rehashed(old(users), users, username, settings.hash(password)) && OnlyKept(old(sessions), sessions, userId, keep)
              else users == old(users) && sessions == old(sessions)
    {
      ChangeOutcomeRows(users, settings, userId, username, current, password);
      PasswordRows(View(), username, password, keep, now, settings);
      var blocked := throttle.Blocked(userId, asked);
      if blocked { return false; }
      if !Authenticates(users, settings, userId, username, current) {
        throttle.RecordFailure(userId, answered);
        return false;
      }
      var error := SetPasswordOf(username, password, keep, now);
      if error.Some? { return false; }
      throttle.Forgive(userId, answered);
      return true;
    }
  }

  /** `authenticate` succeeds and yields the expected user. */
  predicate Authenticates(users: seq<User>, settings: Settings, userId: string, username: string, password: string) {
    var i := IndexByName(users, username);
    i < |users| && settings.verify(password, users[i].passwordHash) && !users[i].disabled && users[i].id == userId
  }

  /** How a password change ends when the throttle lets it through. */
  function ChangeOutcome(users: seq<User>, settings: Settings, userId: string, username: string, current: string, password: string): Outcome {
    if !Authenticates(users, settings, userId, username, current) then CredentialsRejected
    else if PasswordTarget(users, username, password).Err? then ChangeRefused
    else Changed
  }

  // ----- the operations over the rows

  /** The row that a lookup by name finds: the first with that name. */
  ghost predicate Named(users: seq<User>, username: string, i: nat) {
    i < |users| && users[i].username == username && forall j :: 0 <= j < i ==> users[j].username != username
  }

  /** The row of that name is this user, is not disabled, and its hash verifies the password. */
  ghost predicate HoldsPassword(users: seq<User>, userId: string, username: string, password: string, settings: Settings) {
    exists i: nat :: Named(users, username, i) && users[i].id == userId && !users[i].disabled && settings.verify(password, users[i].passwordHash)
  }

  /** The row of that name has the hash, and nothing else has changed. */
  ghost predicate Rehashed(before: seq<User>, after: seq<User>, username: string, hash: string) {
    && |after| == |before|
    && forall i :: 0 <= i < |before| ==>
         after[i] == if Named(before, username, i) then before[i].(passwordHash := hash) else before[i]
  }

  /** Of the sessions of the user only the kept one is left, and all those of others. */
  ghost predicate OnlyKept(before: map<Digest, Session>, after: map<Digest, Session>, userId: string, keep: Option<Digest>) {
    && (forall d :: d in after <==> d in before && (before[d].userId != userId || keep == Some(d)))
    && (forall d :: d in after ==> after[d] == before[d])
  }

  lemma NamedIsIndex(users: seq<User>, username: string)
    ensures forall i: nat :: Named(users, username, i) <==> i == IndexByName(users, username) && i < |users|
  {
    forall i: nat | Named(users, username, i) ensures i == IndexByName(users, username) {
      assert users[i].username == username;
    }
  }

  lemma ChangeOutcomeRows(users: seq<User>, settings: Settings, userId: string, username: string, current: string, password: string)
    ensures ChangeOutcome(users, settings, userId, username, current, password) ==
              if !HoldsPassword(users, userId, username, current, settings) then CredentialsRejected
              else if |password| < 8 then ChangeRefused
              else Changed
  {
    NamedIsIndex(users, username);
    var i := IndexByName(users, username);
    assert Authenticates(users, settings, userId, username, current) ==> Named(users, username, i);
  }

  /** A password is set when it is long enough and the row of that name exists and is not disabled. */
  lemma PasswordRows(s: State, username: string, password: string, keep: Option<Digest>, now: int, settings: Settings)
    ensures var after := Next(s, SetPassword(username, password, keep, now), settings);
            && (forall i: nat :: Named(s.users, username, i) && !s.users[i].disabled && |password| >= 8 ==>
                  Rehashed(s.users, after.users, username, settings.hash(password)) && OnlyKept(s.sessions, after.sessions, s.users[i].id, keep))
            && (|password| < 8 || (forall i: nat :: Named(s.users, username, i) ==> s.users[i].disabled) ==> after == s)
  {
    NamedIsIndex(s.users, username);
  }

  /** A user row is replaced by id, or added. */
  lemma AdminRows(s: State, user: User, now: int, settings: Settings)
    ensures var after := Next(s, AdminSetUser(user, now), settings);
            && after.sessions == s.sessions && user in after.users
            && (forall u :: u in after.users && u.id != user.id ==> u in s.users)
            && (forall u :: u in s.users && u.id != user.id ==> u in after.users)
  {
    var i, after := IndexById(s.users, user.id), UsersAfter(s.users, AdminSetUser(user, now), settings);
    assert after[i] == user;
    forall u | u in s.users && u.id != user.id ensures u in after {
      var k :| 0 <= k < |s.users| && s.users[k] == u;
      assert after[k] == u;
    }
  }

  /** The first row with the id is not disabled. */
  ghost predicate Enabled(users: seq<User>, id: string) {
    exists i: nat :: i < |users| && users[i].id == id && !users[i].disabled && forall j :: 0 <= j < i ==> users[j].id != id
  }

  lemma ActiveMeans(users: seq<User>, id: string)
    ensures Active(users, id) <==> Enabled(users, id)
  {
    if Enabled(users, id) {
      var i: nat :| i < |users| && users[i].id == id && !users[i].disabled && forall j :: 0 <= j < i ==> users[j].id != id;
      assert IndexById(users, id) == i;
    }
  }

  /** A token answers when its session has not expired and its user is enabled; otherwise its row is deleted. */
  lemma ResolveRows(s: State, d: Digest, now: int, settings: Settings)
    ensures var live := d in s.sessions && now < s.sessions[d].expiresAt && Enabled(s.users, s.sessions[d].userId);
            && Answer(s, d, now) == (if live then Some(s.sessions[d].userId) else None)
            && Next(s, ResolveToken(d, now), settings) ==
                 State(s.users, if live then s.sessions[d := s.sessions[d].(lastSeenAt := now)] else s.sessions - {d})
  {
    if d in s.sessions { ActiveMeans(s.users, s.sessions[d].userId); }
  }

  /** A session is created for an existing user under an unused digest, and lasts as long as configured. */
  lemma CreateRows(s: State, d: Digest, userId: string, now: int, settings: Settings)
    ensures Next(s, CreateSession(d, userId, now), settings) ==
              if d !in s.sessions && (exists u :: u in s.users && u.id == userId)
              then State(s.users, s.sessions[d := Session(userId, now + settings.sessionTtl, now)])
              else s
  {
    if u :| u in s.users && u.id == userId {
      var k :| 0 <= k < |s.users| && s.users[k] == u;
    }
  }

  lemma RevokeAndPurgeRows(s: State, d: Digest, now: int, settings: Settings)
    ensures Next(s, RevokeToken(d, now), settings) == State(s.users, s.sessions - {d})
    ensures var after := Next(s, PurgeExpired(now), settings);
            && after.users == s.users
            && (forall x :: x in after.sessions <==> x in s.sessions && now < s.sessions[x].expiresAt)
            && (forall x :: x in after.sessions ==> after.sessions[x] == s.sessions[x])
  {
  }

  // ----- runs

  function Run(ops: seq<Op>, settings: Settings): State {
    if ops == [] then State([], map[]) else Next(Run(ops[..|ops| - 1], settings), ops[|ops| - 1], settings)
  }

  ghost predicate NoEarlier(now: int, ops: seq<Op>) {
    ops == [] || ops[|ops| - 1].now <= now
  }

  ghost predicate InOrder(ops: seq<Op>) {
    ops == [] || (InOrder(ops[..|ops| - 1]) && NoEarlier(ops[|ops| - 1].now, ops[..|ops| - 1]))
  }

  /** No token is issued twice. */
  ghost predicate DistinctTokens(ops: seq<Op>) {
    forall i, j :: 0 <= i < j < |ops| && ops[i].CreateSession? && ops[j].CreateSession? ==> ops[i].digest != ops[j].digest
  }

  function UserLog(ops: seq<Op>, settings: Settings): seq<User> {
    if ops == [] then [] else UsersAfter(UserLog(ops[..|ops| - 1], settings), ops[|ops| - 1], settings)
  }

  lemma {:induction false} UsersFollowLog(ops: seq<Op>, settings: Settings)
    ensures Run(ops, settings).users == UserLog(ops, settings)
  {
    if ops != [] { UsersFollowLog(ops[..|ops| - 1], settings); }
  }

  /** The login at position i issued this token to this user. */
  predicate Issues(ops: seq<Op>, i: nat, d: Digest, userId: string, settings: Settings)
    requires i < |ops|
  {
    && ops[i].CreateSession? && ops[i].digest == d && ops[i].userId == userId
    && IndexById(UserLog(ops[..i], settings), userId) < |UserLog(ops[..i], settings)|
  }

  /** An operation that ends a token's session for good: an explicit revocation, a password change of its
      user that does not keep it, or a use of it while its user is not active. */
  predicate EndsSession(users: seq<User>, op: Op, d: Digest, userId: string) {
    match op
    case RevokeToken(digest, _) => digest == d
    case SetPassword(username, password, keep, _) =>
      var target := PasswordTarget(users, username, password);
      target.Ok? && users[target.value].id == userId && keep != Some(d)
    case ResolveToken(digest, _) => digest == d && !Active(users, userId)
    case _ => false
  }

  predicate Ends(ops: seq<Op>, j: nat, d: Digest, userId: string, settings: Settings)
    requires j < |ops|
  {
    EndsSession(UserLog(ops[..j], settings), ops[j], d, userId)
  }

  /** Reference: the token was issued to the user at position i and nothing since has ended it.
      Expiry and purging play no part. */
  ghost predicate Standing(ops: seq<Op>, i: nat, d: Digest, userId: string, settings: Settings) {
    i < |ops| && Issues(ops, i, d, userId, settings) && forall j :: i < j < |ops| ==> !Ends(ops, j, d, userId, settings)
  }

  /** What the table must show for a standing token that has not expired. */
  ghost predicate Shows(sessions: map<Digest, Session>, ops: seq<Op>, i: nat, d: Digest, userId: string, settings: Settings)
    requires i < |ops|
  {
    d in sessions && sessions[d].userId == userId && sessions[d].expiresAt == ops[i].now + settings.sessionTtl
  }

  lemma StandingPrefix(ops: seq<Op>, i: nat, d: Digest, userId: string, settings: Settings)
    requires ops != [] && i < |ops| - 1
    ensures Standing(ops, i, d, userId, settings) <==>
              Standing(ops[..|ops| - 1], i, d, userId, settings) && !Ends(ops, |ops| - 1, d, userId, settings)
  {
    var init := ops[..|ops| - 1];
    assert init[..i] == ops[..i];
    assert forall j :: i < j < |init| ==> init[..j] == ops[..j];
    assert forall j :: i < j < |init| ==> (Ends(init, j, d, userId, settings) <==> Ends(ops, j, d, userId, settings));
  }

  predicate SameGrant(a: Session, b: Session) {
    a.userId == b.userId && a.expiresAt == b.expiresAt
  }

  /** A row after an operation was there before and was not ended, or has just been issued. */
  lemma RowOrigin(s: State, op: Op, d: Digest, settings: Settings)
    requires d in SessionsAfter(s, op, settings)
    ensures var row := SessionsAfter(s, op, settings)[d];
            if d in s.sessions then SameGrant(row, s.sessions[d]) && !EndsSession(s.users, op, d, row.userId)
            else op.CreateSession? && op.digest == d && op.userId == row.userId && IndexById(s.users, op.userId) < |s.users|
                 && row.expiresAt == op.now + settings.sessionTtl
  {
  }

  /** A row that has not expired survives every operation that does not end it. */
  lemma RowSurvives(s: State, op: Op, d: Digest, settings: Settings)
    requires d in s.sessions && s.sessions[d].expiresAt > op.now && !EndsSession(s.users, op, d, s.sessions[d].userId)
    ensures d in SessionsAfter(s, op, settings) && SameGrant(SessionsAfter(s, op, settings)[d], s.sessions[d])
  {
  }

  /** Every row of the table is a standing token, with the expiry its login gave it. */
  lemma {:induction false} RowsStand(ops: seq<Op>, d: Digest, settings: Settings) returns (i: nat)
    requires d in Run(ops, settings).sessions
    ensures i < |ops| && Standing(ops, i, d, Run(ops, settings).sessions[d].userId, settings)
    ensures Shows(Run(ops, settings).sessions, ops, i, d, Run(ops, settings).sessions[d].userId, settings)
  {
    var n := |ops| - 1;
    var before := Run(ops[..n], settings);
    UsersFollowLog(ops[..n], settings);
    RowOrigin(before, ops[n], d, settings);
    if d in before.sessions {
      i := RowsStand(ops[..n], d, settings);
      StandingPrefix(ops, i, d, before.sessions[d].userId, settings);
    } else {
      i := n;
    }
  }

  /** A standing token that has not expired is in the table. */
  lemma {:induction false} StandingShows(ops: seq<Op>, i: nat, d: Digest, userId: string, now: int, settings: Settings)
    requires InOrder(ops) && NoEarlier(now, ops) && DistinctTokens(ops)
    requires Standing(ops, i, d, userId, settings) && ops[i].now + settings.sessionTtl > now
    ensures Shows(Run(ops, settings).sessions, ops, i, d, userId, settings)
  {
    var n := |ops| - 1;
    if i < n {
      StandingPrefix(ops, i, d, userId, settings);
      EarlierRun(ops, now);
      StandingShows(ops[..n], i, d, userId, now, settings);
      ShowsStep(ops, i, d, userId, settings);
    } else {
      TokenIsNew(ops, d, settings);
      IssueShows(ops, d, userId, settings);
    }
  }

  lemma EarlierRun(ops: seq<Op>, now: int)
    requires ops != [] && InOrder(ops) && NoEarlier(now, ops) && DistinctTokens(ops)
    ensures InOrder(ops[..|ops| - 1]) && NoEarlier(now, ops[..|ops| - 1]) && DistinctTokens(ops[..|ops| - 1])
  {
  }

  lemma {:induction false} ShowsStep(ops: seq<Op>, i: nat, d: Digest, userId: string, settings: Settings)
    requires i < |ops| - 1 && !Ends(ops, |ops| - 1, d, userId, settings)
    requires ops[i].now + settings.sessionTtl > ops[|ops| - 1].now
    requires Shows(Run(ops[..|ops| - 1], settings).sessions, ops[..|ops| - 1], i, d, userId, settings)
    ensures Shows(Run(ops, settings).sessions, ops, i, d, userId, settings)
  {
    UsersFollowLog(ops[..|ops| - 1], settings);
    RowSurvives(Run(ops[..|ops| - 1], settings), ops[|ops| - 1], d, settings);
  }

  lemma IssueShows(ops: seq<Op>, d: Digest, userId: string, settings: Settings)
    requires ops != [] && Issues(ops, |ops| - 1, d, userId, settings) && d !in Run(ops[..|ops| - 1], settings).sessions
    ensures Shows(Run(ops, settings).sessions, ops, |ops| - 1, d, userId, settings)
  {
    UsersFollowLog(ops[..|ops| - 1], settings);
  }

  /** A token about to be issued has no row yet. */
  lemma TokenIsNew(ops: seq<Op>, d: Digest, settings: Settings)
    requires ops != [] && DistinctTokens(ops) && ops[|ops| - 1].CreateSession? && ops[|ops| - 1].digest == d
    ensures d !in Run(ops[..|ops| - 1], settings).sessions
  {
    var init := ops[..|ops| - 1];
    if d in Run(init, settings).sessions {
      var k := RowsStand(init, d, settings);
    }
  }

  /** Over every run with a forward clock and distinct tokens, what a token resolves to is decided by its
      history alone: it resolves to a user exactly when it was issued to that user less than the session
      lifetime ago, nothing has ended it since, and the user is active now. */
  lemma {:induction false} ResolutionByHistory(ops: seq<Op>, d: Digest, userId: string, now: int, settings: Settings)
    requires InOrder(ops) && NoEarlier(now, ops) && DistinctTokens(ops)
    ensures Answer(Run(ops, settings), d, now) == Some(userId) <==>
              && Active(UserLog(ops, settings), userId)
              && exists i: nat :: Standing(ops, i, d, userId, settings) && ops[i].now + settings.sessionTtl > now
  {
    UsersFollowLog(ops, settings);
    var sessions := Run(ops, settings).sessions;
    if Answer(Run(ops, settings), d, now) == Some(userId) {
      var i := RowsStand(ops, d, settings);
      assert Standing(ops, i, d, userId, settings);
    }
    if i: nat :| Standing(ops, i, d, userId, settings) && ops[i].now + settings.sessionTtl > now {
      StandingShows(ops, i, d, userId, now, settings);
    }
  }

  /** A token that was issued once and then ended does not stand. */
  lemma EndedForGood(ops: seq<Op>, i: nat, j: nat, d: Digest, userId: string, k: nat, other: string, settings: Settings)
    requires DistinctTokens(ops) && i < j < |ops|
    requires Issues(ops, i, d, userId, settings) && Ends(ops, j, d, userId, settings)
    ensures !Standing(ops, k, d, other, settings)
  {
    if k < |ops| && Issues(ops, k, d, other, settings) {
      assert ops[i].digest == ops[k].digest && ops[i].CreateSession? && ops[k].CreateSession?;
      assert k == i && other == userId;
    }
  }

  /** After a password change no session issued to that user before it, other than the kept one, ever
      resolves again. */
  lemma PasswordChangeIsFinal(ops: seq<Op>, i: nat, j: nat, d: Digest, userId: string, now: int, settings: Settings)
    requires InOrder(ops) && NoEarlier(now, ops) && DistinctTokens(ops)
    requires i < j < |ops| && Issues(ops, i, d, userId, settings)
    requires ops[j].SetPassword? && ops[j].keep != Some(d)
    requires var users := UserLog(ops[..j], settings);
             var target := PasswordTarget(users, ops[j].username, ops[j].password);
             target.Ok? && users[target.value].id == userId
    ensures Answer(Run(ops, settings), d, now) == None
  {
    forall other: string ensures Answer(Run(ops, settings), d, now) != Some(other) {
      ResolutionByHistory(ops, d, other, now, settings);
      forall k: nat ensures !Standing(ops, k, d, other, settings) {
        EndedForGood(ops, i, j, d, userId, k, other, settings);
      }
    }
  }

  // ----- purging changes no answer

  /** The part of a session that decides later answers, while it has not expired. */
  function Live(s: State, d: Digest, now: int): Option<(string, int)> {
    if d in s.sessions && s.sessions[d].expiresAt > now then Some((s.sessions[d].userId, s.sessions[d].expiresAt)) else None
  }

  ghost predicate Agree(s: State, t: State, now: int) {
    s.users == t.users && forall d :: Live(s, d, now) == Live(t, d, now)
  }

  function RunFrom(s: State, ops: seq<Op>, settings: Settings): State
    decreases |ops|
  {
    if ops == [] then s else RunFrom(Next(s, ops[0], settings), ops[1..], settings)
  }

  /** Clock readings from `now` on, and tokens that no table row has yet. */
  ghost predicate Continues(s: State, t: State, ops: seq<Op>, now: int, settings: Settings)
    decreases |ops|
  {
    ops != [] ==>
      && now <= ops[0].now
      && (ops[0].CreateSession? ==> ops[0].digest !in s.sessions && ops[0].digest !in t.sessions)
      && Continues(Next(s, ops[0], settings), Next(t, ops[0], settings), ops[1..], ops[0].now, settings)
  }

  lemma AgreeStep(s: State, t: State, op: Op, now: int, settings: Settings)
    requires Agree(s, t, now) && now <= op.now
    requires op.CreateSession? ==> op.digest !in s.sessions && op.digest !in t.sessions
    ensures Agree(Next(s, op, settings), Next(t, op, settings), op.now)
  {
    forall d ensures Live(Next(s, op, settings), d, op.now) == Live(Next(t, op, settings), d, op.now) {
      assert Live(s, d, now) == Live(t, d, now);
    }
  }

  lemma {:induction false} AgreementLasts(s: State, t: State, ops: seq<Op>, now: int, d: Digest, later: int, settings: Settings)
    requires Agree(s, t, now) && now <= later && Continues(s, t, ops, now, settings)
    requires forall k :: 0 <= k < |ops| ==> ops[k].now <= later
    ensures Answer(RunFrom(s, ops, settings), d, later) == Answer(RunFrom(t, ops, settings), d, later)
    decreases |ops|
  {
    if ops == [] {
      assert Live(s, d, now) == Live(t, d, now);
    } else {
      AgreeStep(s, t, ops[0], now, settings);
      AgreementLasts(Next(s, ops[0], settings), Next(t, ops[0], settings), ops[1..], ops[0].now, d, later, settings);
    }
  }

  /** Whatever happens afterwards, purging changes no later answer for any token. */
  lemma {:induction false} PurgeIsTransparent(s: State, ops: seq<Op>, now: int, d: Digest, later: int, settings: Settings)
    requires Continues(s, Next(s, PurgeExpired(now), settings), ops, now, settings)
    requires now <= later && forall k :: 0 <= k < |ops| ==> ops[k].now <= later
    ensures Answer(RunFrom(Next(s, PurgeExpired(now), settings), ops, settings), d, later)
         == Answer(RunFrom(s, ops, settings), d, later)
  {
    AgreementLasts(s, Next(s, PurgeExpired(now), settings), ops, now, d, later, settings);
  }
}
