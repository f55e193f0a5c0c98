/** Refresh-token rotation under concurrency: every request is a sequence of atomic steps on one token table, and the
    steps of different requests interleave freely. Hashes and tokens are opaque names, and a generated one is new.
    Each step that reads a clock reads its own: clocks are not assumed to agree. */
module TokenRotation {
  import opened Options

  type Hash = string
  type User = string
  type CallId = nat

  datatype Row = Row(user: User, expiresAt: int, revokedAt: Option<int>, replacedBy: Option<Hash>)

  /** Why a request mints: it won the rotation of a token it had read, or it replayed a rotated token inside the grace
      window. */
  datatype Why = Rotation(readAt: int) | Grace(row: Row, now: int)

  datatype Outcome = Minted(hash: Hash) | InvalidToken | Expired | Reused | UserInactive | Failed

  /** Where a request stands; each state but Finished is followed by one atomic step. */
  datatype Progress =
    | Reading(presented: Hash)
    | Revoking(presented: Hash, stored: Row, readAt: int)
    | Rereading(presented: Hash, stored: Row)
    | Judging(presented: Hash, row: Row)
    | Sweeping(presented: Hash, user: User)
    | Looking(presented: Hash, user: User, why: Why, successor: Option<Hash>)
    | Minting(presented: Hash, user: User, why: Why, hash: Hash)
    | Finished(presented: Hash, outcome: Outcome)

  /** A conditional revoke that changed its row, with the time at which the request had read it. */
  datatype Win = Win(call: CallId, hash: Hash, successor: Hash, readAt: int)

  /** A token minted by a refresh. */
  datatype MintEvent = MintEvent(call: CallId, presented: Hash, why: Why, hash: Hash, user: User)

  /** The token table and the requests, with the history the properties speak about: generated hashes, the owner each
      stored hash was created for and its expiry, the wins and the mints. */
  datatype State = State(
    table: map<Hash, Row>,
    calls: map<CallId, Progress>,
    used: set<Hash>,
    owner: map<Hash, User>,
    expiry: map<Hash, int>,
    wins: seq<Win>,
    mints: seq<MintEvent>)

  datatype Config = Config(refreshTTL: int, graceWindow: int)

  const INITIAL := State(map[], map[], {}, map[], map[], [], [])

  // ----- the repository's statements -----

  function RevokeByHash(table: map<Hash, Row>, hash: Hash, successor: Hash, now: int): (map<Hash, Row>, bool) {
    if hash in table && table[hash].revokedAt.None?
    then (table[hash := table[hash].(revokedAt := Some(now), replacedBy := Some(successor))], true)
    else (table, false)
  }

  function RevokeByUser(table: map<Hash, Row>, user: User, now: int): map<Hash, Row> {
    map h | h in table ::
      if table[h].user == user && table[h].revokedAt.None? then table[h].(revokedAt := Some(now)) else table[h]
  }

  function DeleteExpiredRows(table: map<Hash, Row>, now: int): map<Hash, Row> {
    map h | h in table && !(table[h].expiresAt < now) :: table[h]
  }

  // ----- the steps -----

  datatype Action =
    | Begin(c: CallId, presented: Hash)
    | Read(c: CallId, now: int)
    | Revoke(c: CallId, made: Hash, now: int)
    /** The conditional revoke took effect but its answer was lost: the request fails. */
    | RevokeUnanswered(c: CallId, made: Hash, now: int)
    | Reread(c: CallId)
    /** The second read fails, and the request goes on to its sweep. */
    | RereadFailed(c: CallId)
    | Judge(c: CallId, now: int)
    | Sweep(c: CallId, now: int)
    /** The sweep fails, which the service does not look at. */
    | SweepFailed(c: CallId)
    | Lookup(c: CallId, active: bool, made: Hash)
    | Mint(c: CallId, now: int)
    /** The insert took effect but its answer was lost: the request fails. */
    | MintUnanswered(c: CallId, now: int)
    /** The first read, the generation of a token, the conditional revoke, the user lookup or the insert fails. */
    | Fail(c: CallId)
    | Login(user: User, made: Hash, now: int)
    | Logout(user: User, now: int)
    | DeleteExpired(now: int)

  predicate At(s: State, c: CallId) { c in s.calls }

  /** Where an error ends the request; a failing second read or sweep does not. */
  predicate CanFail(call: Progress) {
    call.Reading? || call.Revoking? || call.Looking? || call.Minting?
  }

  /** A step is taken by a request that stands where it belongs, and what it generates is new. */
  ghost predicate Enabled(s: State, a: Action) {
    match a
    case Begin(c, _) => c !in s.calls
    case Read(c, _) => At(s, c) && s.calls[c].Reading?
    case Revoke(c, made, _) => At(s, c) && s.calls[c].Revoking? && made !in s.used
    case RevokeUnanswered(c, made, _) => At(s, c) && s.calls[c].Revoking? && made !in s.used
    case Reread(c) => At(s, c) && s.calls[c].Rereading?
    case RereadFailed(c) => At(s, c) && s.calls[c].Rereading?
    case Judge(c, _) => At(s, c) && s.calls[c].Judging?
    case Sweep(c, _) => At(s, c) && s.calls[c].Sweeping?
    case SweepFailed(c) => At(s, c) && s.calls[c].Sweeping?
    case Lookup(c, _, made) => At(s, c) && s.calls[c].Looking? && made !in s.used
    case Mint(c, _) => At(s, c) && s.calls[c].Minting?
    case MintUnanswered(c, _) => At(s, c) && s.calls[c].Minting?
    case Fail(c) => At(s, c) && CanFail(s.calls[c])
    case Login(_, made, _) => made !in s.used
    case Logout(_, _) => true
    case DeleteExpired(_) => true
  }

  function Goto(s: State, c: CallId, call: Progress): State {
    s.(calls := s.calls[c := call])
  }

  /** RefreshTokens' first read decides between an unknown token, a replay, an expired token and a rotation. */
  function AfterRead(table: map<Hash, Row>, presented: Hash, now: int): Progress {
    if presented !in table then Finished(presented, InvalidToken)
    else if table[presented].revokedAt.Some? then Judging(presented, table[presented])
    else if table[presented].expiresAt < now then Finished(presented, Expired)
    else Revoking(presented, table[presented], now)
  }

  function AfterReread(table: map<Hash, Row>, presented: Hash, stored: Row): Progress {
    if presented in table && table[presented].revokedAt.Some? then Judging(presented, table[presented])
    else Sweeping(presented, stored.user)
  }

  /** The grace rule of handleTokenReuse. */
  predicate GraceEligible(cfg: Config, row: Row, now: int) {
    && row.revokedAt.Some? && row.replacedBy.Some?
    && 0 <= now - row.revokedAt.value <= cfg.graceWindow
  }

  function AfterJudge(cfg: Config, presented: Hash, row: Row, now: int): Progress {
    if GraceEligible(cfg, row, now) then Looking(presented, row.user, Grace(row, now), None)
    else Sweeping(presented, row.user)
  }

  /** The user lookup; a grace replay generates its new token only now, a rotation did before its revoke. */
  function AfterLookup(call: Progress, active: bool, made: Hash): Progress
    requires call.Looking?
  {
    if !active then Finished(call.presented, UserInactive)
    else Minting(call.presented, call.user, call.why, if call.successor.Some? then call.successor.value else made)
  }

  function DoRevoke(s: State, c: CallId, made: Hash, now: int, answered: bool): State
    requires c in s.calls && s.calls[c].Revoking?
  {
    var call := s.calls[c];
    var (table, won) := RevokeByHash(s.table, call.presented, made, now);
    var next :=
      if !answered then Finished(call.presented, Failed)
      else if won then Looking(call.presented, call.stored.user, Rotation(call.readAt), Some(made))
      else Rereading(call.presented, call.stored);
    Goto(s, c, next).(
      table := table,
      used := s.used + {made},
      wins := if won then s.wins + [Win(c, call.presented, made, call.readAt)] else s.wins)
  }

  function AfterMint(call: Progress, answered: bool): Progress
    requires call.Minting?
  {
    Finished(call.presented, if answered then Minted(call.hash) else Failed)
  }

  /** issueTokenPair's insert. */
  function DoMint(cfg: Config, s: State, c: CallId, now: int, answered: bool): State
    requires c in s.calls && s.calls[c].Minting?
  {
    var call := s.calls[c];
    Goto(s, c, AfterMint(call, answered)).(
      table := s.table[call.hash := Row(call.user, now + cfg.refreshTTL, None, None)],
      owner := s.owner[call.hash := call.user],
      expiry := s.expiry[call.hash := now + cfg.refreshTTL],
      mints := s.mints + [MintEvent(c, call.presented, call.why, call.hash, call.user)])
  }

  ghost function Step(cfg: Config, s: State, a: Action): State
    requires Enabled(s, a)
  {
    match a
    case Begin(c, presented) => Goto(s, c, Reading(presented))
    case Read(c, now) => Goto(s, c, AfterRead(s.table, s.calls[c].presented, now))
    case Revoke(c, made, now) => DoRevoke(s, c, made, now, true)
    case RevokeUnanswered(c, made, now) => DoRevoke(s, c, made, now, false)
    case Reread(c) => Goto(s, c, AfterReread(s.table, s.calls[c].presented, s.calls[c].stored))
    case RereadFailed(c) => Goto(s, c, Sweeping(s.calls[c].presented, s.calls[c].stored.user))
    case Judge(c, now) => Goto(s, c, AfterJudge(cfg, s.calls[c].presented, s.calls[c].row, now))
    case Sweep(c, now) =>
      Goto(s, c, Finished(s.calls[c].presented, Reused)).(table := RevokeByUser(s.table, s.calls[c].user, now))
    case SweepFailed(c) => Goto(s, c, Finished(s.calls[c].presented, Reused))
    case Lookup(c, active, made) =>
      Goto(s, c, AfterLookup(s.calls[c], active, made)).(used := s.used + {made})
    case Mint(c, now) => DoMint(cfg, s, c, now, true)
    case MintUnanswered(c, now) => DoMint(cfg, s, c, now, false)
    case Fail(c) => Goto(s, c, Finished(s.calls[c].presented, Failed))
    case Login(user, made, now) =>
      s.(table := s.table[made := Row(user, now + cfg.refreshTTL, None, None)],
         used := s.used + {made},
         owner := s.owner[made := user],
         expiry := s.expiry[made := now + cfg.refreshTTL])
    case Logout(user, now) => s.(table := RevokeByUser(s.table, user, now))
    case DeleteExpired(now) => s.(table := DeleteExpiredRows(s.table, now))
  }

  /** s is reached from the empty system by these steps. */
  ghost predicate Reaches(cfg: Config, actions: seq<Action>, s: State)
    decreases actions
  {
    if actions == [] then s == INITIAL
    else
      var n := |actions| - 1;
      exists before :: Reaches(cfg, actions[..n], before) && Enabled(before, actions[n]) && s == Step(cfg, before, actions[n])
  }

  // ----- the invariant -----

  ghost predicate Won(s: State, hash: Hash, successor: Hash) {
    exists w :: w in s.wins && w.hash == hash && w.successor == successor
  }

  /** What is known of a row read for `hash`: its owner and expiry, and that a recorded successor was recorded by a win. */
  ghost predicate TrueRow(s: State, hash: Hash, row: Row) {
    && hash in s.owner && row.user == s.owner[hash] && hash in s.expiry && row.expiresAt == s.expiry[hash]
    && (row.replacedBy.Some? ==> row.revokedAt.Some? && Won(s, hash, row.replacedBy.value))
  }

  ghost predicate TrueTable(s: State) {
    && s.table.Keys <= s.owner.Keys <= s.used && s.expiry.Keys == s.owner.Keys
    && forall h | h in s.table :: TrueRow(s, h, s.table[h])
  }

  /** Every token is won at most once and by a request that read it unexpired, and a won token is stored only as revoked and linked to its successor. */
  ghost predicate TrueWins(s: State) {
    && (forall i, j | 0 <= i < j < |s.wins| :: s.wins[i].hash != s.wins[j].hash)
    && (forall w | w in s.wins :: w.hash in s.owner && w.successor in s.used)
    && (forall w | w in s.wins :: w.hash in s.expiry && w.readAt <= s.expiry[w.hash])
    && (forall w | w in s.wins && w.hash in s.table ::
          s.table[w.hash].revokedAt.Some? && s.table[w.hash].replacedBy == Some(w.successor))
  }

  /** A reason to mint is a true one: the request's own win, or a row that was linked by a win and young enough. */
  ghost predicate Justified(cfg: Config, s: State, c: CallId, presented: Hash, why: Why, hash: Hash) {
    match why
    case Rotation(readAt) => Win(c, presented, hash, readAt) in s.wins
    case Grace(row, now) => TrueRow(s, presented, row) && GraceEligible(cfg, row, now)
  }

  /** The hash a request has generated and not stored yet. */
  function Pending(call: Progress): Option<Hash> {
    match call
    case Looking(_, _, _, successor) => successor
    case Minting(_, _, _, hash) => Some(hash)
    case _ => None
  }

  ghost predicate TrueCall(cfg: Config, s: State, c: CallId)
    requires c in s.calls
  {
    var call := s.calls[c];
    && (Pending(call).Some? ==> Pending(call).value in s.used && Pending(call).value !in s.owner)
    && match call
       case Revoking(h, row, readAt) => TrueRow(s, h, row) && readAt <= row.expiresAt
       case Rereading(h, row) => TrueRow(s, h, row)
       case Judging(h, row) => TrueRow(s, h, row) && row.revokedAt.Some?
       case Looking(h, user, why, successor) =>
         && h in s.owner && user == s.owner[h]
         && (why.Rotation? <==> successor.Some?)
         && Justified(cfg, s, c, h, why, if successor.Some? then successor.value else "")
       case Minting(h, user, why, hash) =>
         h in s.owner && user == s.owner[h] && Justified(cfg, s, c, h, why, hash)
       case _ => true
  }

  ghost predicate TrueCalls(cfg: Config, s: State) {
    && (forall c | c in s.calls :: TrueCall(cfg, s, c))
    && (forall c, d | c in s.calls && d in s.calls && c != d && Pending(s.calls[c]).Some? ::
          Pending(s.calls[c]) != Pending(s.calls[d]))
  }

  /** How a request that minted m has ended: with the new token, or with an error when the insert's answer was lost. */
  predicate EndsMint(call: Progress, m: MintEvent) {
    call == Finished(m.presented, Minted(m.hash)) || call == Finished(m.presented, Failed)
  }

  ghost predicate TrueMints(cfg: Config, s: State) {
    && (forall m | m in s.mints ::
          && m.presented in s.owner && s.owner[m.presented] == m.user
          && m.hash in s.owner && s.owner[m.hash] == m.user
          && Justified(cfg, s, m.call, m.presented, m.why, m.hash)
          && m.call in s.calls && EndsMint(s.calls[m.call], m))
    && (forall i, j | 0 <= i < j < |s.mints| :: s.mints[i].call != s.mints[j].call && s.mints[i].hash != s.mints[j].hash)
  }

  ghost predicate Inv(cfg: Config, s: State) {
    TrueTable(s) && TrueWins(s) && TrueCalls(cfg, s) && TrueMints(cfg, s)
  }

  // ----- one change at a time -----

  /** History only grows. */
  ghost predicate Grown(s: State, t: State) {
    && (forall w | w in s.wins :: w in t.wins)
    && (forall h | h in s.owner :: h in t.owner && t.owner[h] == s.owner[h])
    && (forall h | h in s.expiry :: h in t.expiry && t.expiry[h] == s.expiry[h])
    && s.used <= t.used
  }

  lemma TrueRowGrows(s: State, t: State, hash: Hash, row: Row)
    requires Grown(s, t) && TrueRow(s, hash, row)
    ensures TrueRow(t, hash, row)
  {}

  lemma JustifiedGrows(cfg: Config, s: State, t: State, c: CallId, presented: Hash, why: Why, hash: Hash)
    requires Grown(s, t) && Justified(cfg, s, c, presented, why, hash)
    ensures Justified(cfg, t, c, presented, why, hash)
  {}

  /** What holds of a request's progress keeps holding while history grows, as long as its pending hash is not stored. */
  lemma TrueCallGrows(cfg: Config, s: State, t: State, c: CallId)
    requires Grown(s, t) && c in s.calls && c in t.calls && t.calls[c] == s.calls[c] && TrueCall(cfg, s, c)
    requires Pending(s.calls[c]).Some? ==> Pending(s.calls[c]).value !in t.owner
    ensures TrueCall(cfg, t, c)
  {}

  lemma TrueCallsGrow(cfg: Config, s: State, t: State)
    requires Grown(s, t) && t.calls == s.calls && TrueCalls(cfg, s)
    requires forall h, c | h in t.owner && h !in s.owner && c in s.calls :: Pending(s.calls[c]) != Some(h)
    ensures TrueCalls(cfg, t)
  {}

  lemma TrueMintsGrow(cfg: Config, s: State, t: State)
    requires Grown(s, t) && t.mints == s.mints && TrueMints(cfg, s)
    requires forall c | c in s.calls && s.calls[c].Finished? :: c in t.calls && t.calls[c] == s.calls[c]
    ensures TrueMints(cfg, t)
  {}

  /** Rows disappear, or become revoked and keep their link. */
  ghost predicate Softened(before: map<Hash, Row>, after: map<Hash, Row>) {
    && after.Keys <= before.Keys
    && forall h | h in after ::
         after[h] == before[h] || (before[h].revokedAt.None? && after[h] == before[h].(revokedAt := after[h].revokedAt))
  }

  lemma SoftenKeeps(cfg: Config, s: State, table: map<Hash, Row>)
    requires Inv(cfg, s) && Softened(s.table, table)
    ensures Inv(cfg, s.(table := table))
  {}

  /** A request moves on. */
  lemma GotoKeeps(cfg: Config, s: State, c: CallId, call: Progress)
    requires Inv(cfg, s)
    requires c in s.calls ==> !s.calls[c].Finished?
    requires TrueCall(cfg, Goto(s, c, call), c)
    requires Pending(call).Some? ==> forall d | d in s.calls && d != c :: Pending(s.calls[d]) != Pending(call)
    ensures Inv(cfg, Goto(s, c, call))
  {
    hide TrueRow, Justified;
    var t := Goto(s, c, call);
    TrueMintsGrow(cfg, s, t);
    assert TrueTable(t) by {
      forall h | h in t.table ensures TrueRow(t, h, t.table[h]) { TrueRowGrows(s, t, h, s.table[h]); }
    }
    assert TrueWins(t);
    hide TrueWins, TrueTable, TrueMints;
    forall d | d in t.calls ensures TrueCall(cfg, t, d) {
      if d != c { TrueCallGrows(cfg, s, t, d); }
    }
  }

  /** A hash is generated. */
  lemma GenerateKeeps(cfg: Config, s: State, made: Hash)
    requires Inv(cfg, s)
    ensures Inv(cfg, s.(used := s.used + {made}))
  {}

  /** The conditional revoke changes its row. */
  lemma WinKeeps(cfg: Config, s: State, c: CallId, hash: Hash, made: Hash, readAt: int, now: int)
    requires Inv(cfg, s) && hash in s.table && s.table[hash].revokedAt.None? && made in s.used
    requires hash in s.expiry && readAt <= s.expiry[hash]
    ensures Inv(cfg, s.(table := RevokeByHash(s.table, hash, made, now).0, wins := s.wins + [Win(c, hash, made, readAt)]))
  {
    hide Justified, TrueCall;
    var t := s.(table := RevokeByHash(s.table, hash, made, now).0, wins := s.wins + [Win(c, hash, made, readAt)]);
    assert forall w :: w in t.wins <==> w in s.wins || w == Win(c, hash, made, readAt);
    TrueCallsGrow(cfg, s, t);
    TrueMintsGrow(cfg, s, t);
    hide TrueCalls, TrueMints;
    forall w | w in s.wins ensures w.hash != hash { }
    forall i, j | 0 <= i < j < |t.wins| ensures t.wins[i].hash != t.wins[j].hash {
      assert s.wins[i] in s.wins;
    }
    assert TrueWins(t);
    forall h | h in t.table ensures TrueRow(t, h, t.table[h]) {
      if h == hash {
        assert Win(c, hash, made, readAt) in t.wins;
      } else {
        assert TrueRow(s, h, s.table[h]);
        TrueRowGrows(s, t, h, s.table[h]);
      }
    }
  }

  /** A generated hash that no request has pending is stored as a live token. */
  lemma StoreKeeps(cfg: Config, s: State, hash: Hash, user: User, expiresAt: int)
    requires Inv(cfg, s) && hash in s.used && hash !in s.owner
    requires forall c | c in s.calls :: Pending(s.calls[c]) != Some(hash)
    ensures Inv(cfg, s.(table := s.table[hash := Row(user, expiresAt, None, None)], owner := s.owner[hash := user],
                        expiry := s.expiry[hash := expiresAt]))
  {
    hide Justified, TrueCall;
    var t := s.(table := s.table[hash := Row(user, expiresAt, None, None)], owner := s.owner[hash := user],
                expiry := s.expiry[hash := expiresAt]);
    StoreGrows(s, hash, user, expiresAt);
    TrueCallsGrow(cfg, s, t);
    TrueMintsGrow(cfg, s, t);
    hide TrueCalls, TrueMints, Won, Grown;
    forall h | h in t.table ensures TrueRow(t, h, t.table[h]) {
      if h != hash {
        assert TrueRow(s, h, s.table[h]);
        TrueRowGrows(s, t, h, s.table[h]);
      }
    }
  }

  lemma StoreGrows(s: State, hash: Hash, user: User, expiresAt: int)
    requires hash !in s.owner && s.expiry.Keys == s.owner.Keys
    ensures Grown(s, s.(table := s.table[hash := Row(user, expiresAt, None, None)], owner := s.owner[hash := user],
                        expiry := s.expiry[hash := expiresAt]))
  {}

  /** A true mint enters the history. */
  lemma RecordKeeps(cfg: Config, s: State, m: MintEvent)
    requires Inv(cfg, s)
    requires m.presented in s.owner && s.owner[m.presented] == m.user && m.hash in s.owner && s.owner[m.hash] == m.user
    requires Justified(cfg, s, m.call, m.presented, m.why, m.hash)
    requires m.call in s.calls && EndsMint(s.calls[m.call], m)
    requires forall e | e in s.mints :: e.call != m.call && e.hash != m.hash
    ensures Inv(cfg, s.(mints := s.mints + [m]))
  {
    hide TrueCall, TrueRow, Won;
    var t := s.(mints := s.mints + [m]);
    TrueCallsGrow(cfg, s, t);
    hide TrueCalls;
    assert TrueTable(t) by {
      forall h | h in t.table ensures TrueRow(t, h, t.table[h]) { TrueRowGrows(s, t, h, s.table[h]); }
    }
    assert TrueWins(t);
    hide TrueTable, TrueWins;
    forall e | e in t.mints ensures Justified(cfg, t, e.call, e.presented, e.why, e.hash) {
      assert e in s.mints || e == m;
      JustifiedGrows(cfg, s, t, e.call, e.presented, e.why, e.hash);
    }
    hide Justified;
    assert forall i | 0 <= i < |s.mints| :: s.mints[i] in s.mints;
  }

  // ----- every step, every run -----

  /** A hash not generated before is stored nowhere and pending nowhere. */
  lemma NewIsNew(cfg: Config, s: State, made: Hash)
    requires Inv(cfg, s) && made !in s.used
    ensures made !in s.owner
    ensures forall d | d in s.calls :: Pending(s.calls[d]) != Some(made)
  {}

  lemma CallFacts(cfg: Config, s: State, c: CallId)
    requires Inv(cfg, s) && c in s.calls
    ensures TrueCall(cfg, s, c)
    ensures forall d | d in s.calls && d != c && Pending(s.calls[c]).Some? :: Pending(s.calls[d]) != Pending(s.calls[c])
  {}

  lemma RevokeKeeps(cfg: Config, s: State, c: CallId, made: Hash, now: int, answered: bool)
    requires Inv(cfg, s) && c in s.calls && s.calls[c].Revoking? && made !in s.used
    ensures Inv(cfg, DoRevoke(s, c, made, now, answered))
  {
    hide Inv, Won;
    var call := s.calls[c];
    var h := call.presented;
    CallFacts(cfg, s, c);
    NewIsNew(cfg, s, made);
    var s1 := s.(used := s.used + {made});
    GenerateKeeps(cfg, s, made);
    var (table, won) := RevokeByHash(s.table, h, made, now);
    var s2 := if won then s1.(table := table, wins := s1.wins + [Win(c, h, made, call.readAt)]) else s1;
    if won {
      WinKeeps(cfg, s1, c, h, made, call.readAt, now);
      assert s2.wins[|s1.wins|] == Win(c, h, made, call.readAt);
    }
    var next := if !answered then Finished(h, Failed)
                else if won then Looking(h, call.stored.user, Rotation(call.readAt), Some(made))
                else Rereading(h, call.stored);
    TrueRowGrows(s, Goto(s2, c, next), h, call.stored);
    GotoKeeps(cfg, s2, c, next);
    assert DoRevoke(s, c, made, now, answered) == Goto(s2, c, next);
  }

  lemma MintFacts(cfg: Config, s: State, c: CallId)
    requires Inv(cfg, s) && c in s.calls && s.calls[c].Minting?
    ensures var call := s.calls[c];
            && call.presented in s.owner && call.user == s.owner[call.presented]
            && Justified(cfg, s, c, call.presented, call.why, call.hash)
            && call.hash in s.used && call.hash !in s.owner && call.hash !in s.expiry
            && (forall d | d in s.calls && d != c :: Pending(s.calls[d]) != Some(call.hash))
            && forall e | e in s.mints :: e.call != c && e.hash != call.hash
  {}

  lemma MintKeeps(cfg: Config, s: State, c: CallId, now: int, answered: bool)
    requires Inv(cfg, s) && c in s.calls && s.calls[c].Minting?
    ensures Inv(cfg, DoMint(cfg, s, c, now, answered))
  {
    hide Inv, Justified;
    var call := s.calls[c];
    var m := MintEvent(c, call.presented, call.why, call.hash, call.user);
    var done := AfterMint(call, answered);
    MintFacts(cfg, s, c);
    var s1 := Goto(s, c, done);
    GotoKeeps(cfg, s, c, done);
    var s2 := s1.(table := s1.table[call.hash := Row(call.user, now + cfg.refreshTTL, None, None)],
                  owner := s1.owner[call.hash := call.user],
                  expiry := s1.expiry[call.hash := now + cfg.refreshTTL]);
    StoreKeeps(cfg, s1, call.hash, call.user, now + cfg.refreshTTL);
    JustifiedGrows(cfg, s, s2, c, call.presented, call.why, call.hash);
    RecordKeeps(cfg, s2, m);
    assert DoMint(cfg, s, c, now, answered) == s2.(mints := s2.mints + [m]);
  }

  lemma RevokeByUserSoftens(table: map<Hash, Row>, user: User, now: int)
    ensures Softened(table, RevokeByUser(table, user, now))
  {}

  lemma DeleteSoftens(table: map<Hash, Row>, now: int)
    ensures Softened(table, DeleteExpiredRows(table, now))
  {}

  /** A step that only moves its request to a state that generates nothing. */
  lemma MoveKeeps(cfg: Config, s: State, c: CallId, call: Progress)
    requires Inv(cfg, s) && c in s.calls && !s.calls[c].Finished?
    requires Pending(call).None? && TrueCall(cfg, Goto(s, c, call), c)
    ensures Inv(cfg, Goto(s, c, call))
  {
    GotoKeeps(cfg, s, c, call);
  }

  lemma LookedUpIsTrue(cfg: Config, s: State, c: CallId, active: bool, made: Hash, t: State)
    requires c in s.calls && s.calls[c].Looking? && TrueCall(cfg, s, c) && made !in s.owner
    requires Grown(s, t) && t.owner == s.owner && made in t.used
    requires c in t.calls && t.calls[c] == AfterLookup(s.calls[c], active, made)
    ensures TrueCall(cfg, t, c)
  {}

  lemma LookupKeeps(cfg: Config, s: State, c: CallId, active: bool, made: Hash)
    requires Inv(cfg, s) && c in s.calls && s.calls[c].Looking? && made !in s.used
    ensures Inv(cfg, Step(cfg, s, Lookup(c, active, made)))
  {
    hide Inv, TrueCall;
    var next := AfterLookup(s.calls[c], active, made);
    var s1 := s.(used := s.used + {made});
    CallFacts(cfg, s, c);
    NewIsNew(cfg, s, made);
    LookedUpIsTrue(cfg, s, c, active, made, Goto(s1, c, next));
    GenerateKeeps(cfg, s, made);
    GotoKeeps(cfg, s1, c, next);
    assert Step(cfg, s, Lookup(c, active, made)) == Goto(s1, c, next);
  }

  lemma StepKeeps(cfg: Config, s: State, a: Action)
    requires Inv(cfg, s) && Enabled(s, a)
    ensures Inv(cfg, Step(cfg, s, a))
  {
    hide Inv;
    match a
    case Begin(c, presented) => GotoKeeps(cfg, s, c, Reading(presented));
    case Read(c, now) => ReadKeeps(cfg, s, c, now);
    case Revoke(c, made, now) => RevokeKeeps(cfg, s, c, made, now, true);
    case RevokeUnanswered(c, made, now) => RevokeKeeps(cfg, s, c, made, now, false);
    case Reread(c) => RereadKeeps(cfg, s, c);
    case RereadFailed(c) => MoveKeeps(cfg, s, c, Sweeping(s.calls[c].presented, s.calls[c].stored.user));
    case Judge(c, now) => JudgeKeeps(cfg, s, c, now);
    case Sweep(c, now) =>
      var call := s.calls[c];
      RevokeByUserSoftens(s.table, call.user, now);
      SoftenKeeps(cfg, s, RevokeByUser(s.table, call.user, now));
      MoveKeeps(cfg, s.(table := RevokeByUser(s.table, call.user, now)), c, Finished(call.presented, Reused));
    case SweepFailed(c) => MoveKeeps(cfg, s, c, Finished(s.calls[c].presented, Reused));
    case Lookup(c, active, made) => LookupKeeps(cfg, s, c, active, made);
    case Mint(c, now) => MintKeeps(cfg, s, c, now, true);
    case MintUnanswered(c, now) => MintKeeps(cfg, s, c, now, false);
    case Fail(c) => MoveKeeps(cfg, s, c, Finished(s.calls[c].presented, Failed));
    case Login(user, made, now) => LoginKeeps(cfg, s, user, made, now);
    case Logout(user, now) =>
      RevokeByUserSoftens(s.table, user, now);
      SoftenKeeps(cfg, s, RevokeByUser(s.table, user, now));
    case DeleteExpired(now) =>
      DeleteSoftens(s.table, now);
      SoftenKeeps(cfg, s, DeleteExpiredRows(s.table, now));
  }

  lemma ReadKeeps(cfg: Config, s: State, c: CallId, now: int)
    requires Inv(cfg, s) && c in s.calls && s.calls[c].Reading?
    ensures Inv(cfg, Goto(s, c, AfterRead(s.table, s.calls[c].presented, now)))
  {
    var h := s.calls[c].presented;
    var t := Goto(s, c, AfterRead(s.table, h, now));
    if h in s.table { TrueRowGrows(s, t, h, s.table[h]); }
    MoveKeeps(cfg, s, c, AfterRead(s.table, h, now));
  }

  lemma RereadKeeps(cfg: Config, s: State, c: CallId)
    requires Inv(cfg, s) && c in s.calls && s.calls[c].Rereading?
    ensures Inv(cfg, Goto(s, c, AfterReread(s.table, s.calls[c].presented, s.calls[c].stored)))
  {}

  lemma JudgeKeeps(cfg: Config, s: State, c: CallId, now: int)
    requires Inv(cfg, s) && c in s.calls && s.calls[c].Judging?
    ensures Inv(cfg, Goto(s, c, AfterJudge(cfg, s.calls[c].presented, s.calls[c].row, now)))
  {
    var call := s.calls[c];
    var next := AfterJudge(cfg, call.presented, call.row, now);
    assert TrueCall(cfg, s, c);
    TrueRowGrows(s, Goto(s, c, next), call.presented, call.row);
    MoveKeeps(cfg, s, c, next);
  }

  lemma LoginKeeps(cfg: Config, s: State, user: User, made: Hash, now: int)
    requires Inv(cfg, s) && made !in s.used
    ensures Inv(cfg, Step(cfg, s, Login(user, made, now)))
  {
    hide Inv;
    NewIsNew(cfg, s, made);
    GenerateKeeps(cfg, s, made);
    StoreKeeps(cfg, s.(used := s.used + {made}), made, user, now + cfg.refreshTTL);
  }

  lemma {:induction false} RunKeeps(cfg: Config, actions: seq<Action>, s: State)
    requires Reaches(cfg, actions, s)
    ensures Inv(cfg, s)
    decreases actions
  {
    if actions != [] {
      var n := |actions| - 1;
      var before :| Reaches(cfg, actions[..n], before) && Enabled(before, actions[n]) && s == Step(cfg, before, actions[n]);
      RunKeeps(cfg, actions[..n], before);
      hide Inv, Enabled, Step;
      StepKeeps(cfg, before, actions[n]);
    }
  }

  // ----- what holds in every run -----

  /** However requests interleave, a stored token's conditional revoke is won at most once. */
  lemma OneWinner(cfg: Config, actions: seq<Action>, s: State, i: nat, j: nat)
    requires Reaches(cfg, actions, s) && i < |s.wins| && j < |s.wins| && s.wins[i].hash == s.wins[j].hash
    ensures i == j
  {
    RunKeeps(cfg, actions, s);
  }

  /** A rotated token is never visible as revoked without its successor, and a link is always a win's. */
  lemma RotatedMeansLinked(cfg: Config, actions: seq<Action>, s: State, hash: Hash)
    requires Reaches(cfg, actions, s) && hash in s.table
    ensures forall w | w in s.wins && w.hash == hash ::
              s.table[hash].revokedAt.Some? && s.table[hash].replacedBy == Some(w.successor)
    ensures s.table[hash].replacedBy.Some? ==>
              s.table[hash].revokedAt.Some? && Won(s, hash, s.table[hash].replacedBy.value)
  {
    RunKeeps(cfg, actions, s);
    assert TrueRow(s, hash, s.table[hash]);
  }

  /** However requests interleave, an expired token is never rotated: every win, and every token minted by a winner,
      belongs to a request that read the presented token when its expiry had not passed. */
  lemma OnlyUnexpiredIsRotated(cfg: Config, actions: seq<Action>, s: State)
    requires Reaches(cfg, actions, s)
    ensures forall w | w in s.wins :: w.hash in s.expiry && w.readAt <= s.expiry[w.hash]
    ensures forall m | m in s.mints && m.why.Rotation? :: m.presented in s.expiry && m.why.readAt <= s.expiry[m.presented]
    ensures forall h | h in s.table :: h in s.expiry && s.table[h].expiresAt == s.expiry[h]
  {
    RunKeeps(cfg, actions, s);
    hide TrueCalls;
    forall m | m in s.mints && m.why.Rotation? ensures Win(m.call, m.presented, m.hash, m.why.readAt) in s.wins {
      MintsAreJustified(cfg, actions, s, m);
    }
    assert forall h | h in s.table :: TrueRow(s, h, s.table[h]);
  }

  /** Every minted token was minted by the winner of the presented token's rotation, as the successor the win recorded,
      or by a replay of a token that was read as revoked, linked to a winner's successor, and no older than the grace
      window. It belongs to the presented token's owner. */
  lemma MintsAreJustified(cfg: Config, actions: seq<Action>, s: State, m: MintEvent)
    requires Reaches(cfg, actions, s) && m in s.mints
    ensures m.presented in s.owner && m.hash in s.owner && s.owner[m.hash] == s.owner[m.presented] == m.user
    ensures m.why.Rotation? ==> Win(m.call, m.presented, m.hash, m.why.readAt) in s.wins
    ensures m.why.Grace? ==>
              && m.why.row.revokedAt.Some? && m.why.row.replacedBy.Some?
              && Won(s, m.presented, m.why.row.replacedBy.value)
              && 0 <= m.why.now - m.why.row.revokedAt.value <= cfg.graceWindow
  {
    RunKeeps(cfg, actions, s);
    hide TrueCalls, TrueTable, TrueWins;
    assert Justified(cfg, s, m.call, m.presented, m.why, m.hash);
  }

  /** A request mints at most once, no two mints share a token, and a token is rotated into at most one new one:
      every other mint from it is a grace replay. */
  lemma OneRotationMint(cfg: Config, actions: seq<Action>, s: State, i: nat, j: nat)
    requires Reaches(cfg, actions, s) && i < |s.mints| && j < |s.mints|
    requires s.mints[i].call == s.mints[j].call || s.mints[i].hash == s.mints[j].hash ||
             (s.mints[i].presented == s.mints[j].presented && s.mints[i].why.Rotation? && s.mints[j].why.Rotation?)
    ensures i == j
  {
    RunKeeps(cfg, actions, s);
    var a, b := s.mints[i], s.mints[j];
    MintsAreJustified(cfg, actions, s, a);
    MintsAreJustified(cfg, actions, s, b);
    if a.why.Rotation? && b.why.Rotation? && a.presented == b.presented {
      var k :| 0 <= k < |s.wins| && s.wins[k] == Win(a.call, a.presented, a.hash, a.why.readAt);
      var l :| 0 <= l < |s.wins| && s.wins[l] == Win(b.call, b.presented, b.hash, b.why.readAt);
      OneWinner(cfg, actions, s, k, l);
    }
  }

  /** A request refused as unknown, expired, reused or inactive minted nothing, and neither has one that is not finished;
      only a request that got its new token, or failed when the answer of its insert was lost, has minted. */
  lemma RefusedMintsNothing(cfg: Config, actions: seq<Action>, s: State, c: CallId)
    requires Reaches(cfg, actions, s) && c in s.calls
    requires s.calls[c].Finished? ==> s.calls[c].outcome in {InvalidToken, Expired, Reused, UserInactive}
    ensures forall m | m in s.mints :: m.call != c
  {
    RunKeeps(cfg, actions, s);
  }

  /** A request that minted ended with that very token or as failed. */
  lemma MintedOrFailed(cfg: Config, actions: seq<Action>, s: State, m: MintEvent)
    requires Reaches(cfg, actions, s) && m in s.mints
    ensures m.call in s.calls && s.calls[m.call].Finished? && s.calls[m.call].outcome in {Minted(m.hash), Failed}
  {
    RunKeeps(cfg, actions, s);
  }

  lemma Extended(cfg: Config, actions: seq<Action>, s: State, a: Action) returns (longer: seq<Action>, t: State)
    requires Reaches(cfg, actions, s) && Enabled(s, a)
    ensures Reaches(cfg, longer, t) && t == Step(cfg, s, a)
  {
    longer, t := actions + [a], Step(cfg, s, a);
    assert longer[..|actions|] == actions;
  }

  /** A login's token, and a request that has won its rotation. */
  lemma RotationWon(cfg: Config) returns (actions: seq<Action>, s: State)
    requires cfg.refreshTTL >= 0
    ensures Reaches(cfg, actions, s) && s.used == {"old", "new"}
    ensures s.calls == map[0 := Looking("old", "user", Rotation(0), Some("new"))]
  {
    actions, s := [], INITIAL;
    hide Reaches;
    var live := Row("user", cfg.refreshTTL, None, None);
    actions, s := Extended(cfg, actions, s, Login("user", "old", 0));
    assert s.table == map["old" := live] && s.calls == map[] && s.used == {"old"};
    actions, s := Extended(cfg, actions, s, Begin(0, "old"));
    actions, s := Extended(cfg, actions, s, Read(0, 0));
    assert s.calls == map[0 := Revoking("old", live, 0)];
    actions, s := Extended(cfg, actions, s, Revoke(0, "new", 0));
  }

  /** A request can mint and still end as failed: its insert takes effect and the answer is lost. */
  lemma FailedCanHaveMinted(cfg: Config) returns (actions: seq<Action>, s: State, m: MintEvent)
    requires cfg.refreshTTL >= 0
    ensures Reaches(cfg, actions, s) && m in s.mints && m.call in s.calls
    ensures s.calls[m.call] == Finished(m.presented, Failed) && m.hash in s.table && s.table[m.hash].revokedAt.None?
  {
    actions, s := RotationWon(cfg);
    hide Reaches;
    actions, s := Extended(cfg, actions, s, Lookup(0, true, "spare"));
    assert s.calls == map[0 := Minting("old", "user", Rotation(0), "new")];
    actions, s := Extended(cfg, actions, s, MintUnanswered(0, 0));
    m := s.mints[|s.mints| - 1];
  }
}
