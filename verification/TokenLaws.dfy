/** What a refresh request answers and does to the table, told in the columns of its rows. */
module TokenLaws {
  import opened Options
  import opened TokenRotation
  import opened TokenService

  // ----- what the statements do to a table -----

  /** The user's live rows get the time; nothing else changes. */
  ghost predicate UserRevoked(before: map<Hash, Row>, after: map<Hash, Row>, user: User, now: int) {
    && after.Keys == before.Keys
    && forall h | h in before ::
         after[h] == if before[h].user == user && before[h].revokedAt == None
                     then Row(user, before[h].expiresAt, Some(now), before[h].replacedBy) else before[h]
  }

  /** One row gets the time and its successor, keeping its user and expiry; nothing else changes. */
  ghost predicate Replaced(before: map<Hash, Row>, after: map<Hash, Row>, hash: Hash, successor: Hash, now: int) {
    && hash in before && after.Keys == before.Keys
    && after[hash] == Row(before[hash].user, before[hash].expiresAt, Some(now), Some(successor))
    && forall h | h in before && h != hash :: after[h] == before[h]
  }

  /** A live row for the user is stored under the hash; nothing else changes. */
  ghost predicate Added(before: map<Hash, Row>, after: map<Hash, Row>, hash: Hash, user: User, expiresAt: int) {
    && after.Keys == before.Keys + {hash} && after[hash] == Row(user, expiresAt, None, None)
    && forall h | h in before && h != hash :: after[h] == before[h]
  }

  lemma RevokingUserInWords(rows: map<Hash, Row>, user: User, now: int)
    ensures UserRevoked(rows, RevokeByUser(rows, user, now), user, now)
  {}

  /** The conditional revoke changes its row exactly when that is there and live. */
  lemma ConditionalRevokeInWords(rows: map<Hash, Row>, hash: Hash, successor: Hash, now: int)
    ensures var (after, won) := TokenRotation.RevokeByHash(rows, hash, successor, now);
            && (won <==> hash in rows && rows[hash].revokedAt == None)
            && (won ==> Replaced(rows, after, hash, successor, now)) && (!won ==> after == rows)
  {}

  lemma DeletingExpiredInWords(rows: map<Hash, Row>, now: int, h: Hash)
    ensures h in DeleteExpiredRows(rows, now) <==> h in rows && now <= rows[h].expiresAt
    ensures h in DeleteExpiredRows(rows, now) ==> DeleteExpiredRows(rows, now)[h] == rows[h]
  {}

  // ----- which answer, and which table -----

  /** The first read decides: an unknown token is invalid, an unrevoked one whose expiry has passed is expired, in both
      cases nothing changes, and no other request gets these answers. */
  lemma InvalidAndExpired(cfg: Config, rows: map<Hash, Row>, presented: Hash, made: Hash, again: Hash, active: bool, t: Times,
                          f: Faults, others: map<Hash, Row> -> map<Hash, Row>)
    ensures var (after, outcome) := Refresh(cfg, rows, presented, made, again, active, t, f, others);
            && (f.read ==> outcome == Failed && after == rows)
            && (outcome == InvalidToken <==> !f.read && presented !in rows)
            && (outcome == Expired <==>
                  !f.read && presented in rows && rows[presented].revokedAt == None && rows[presented].expiresAt < t.read)
            && (outcome in {InvalidToken, Expired} ==> after == rows)
  {
    hide RevokeByUser;
  }

  /** From the user lookup on: an error, an inactive user, or a row with a full lifetime, answered or not. */
  ghost predicate IssuedInWords(cfg: Config, before: map<Hash, Row>, user: User, hash: Hash, active: bool, t: Times, f: Faults,
                                after: map<Hash, Row>, outcome: Outcome) {
    if f.lookup then after == before && outcome == Failed
    else if !active then after == before && outcome == UserInactive
    else
      match f.mint
      case NotDone => after == before && outcome == Failed
      case Answered => Added(before, after, hash, user, t.mint + cfg.refreshTTL) && outcome == Minted(hash)
      case Unanswered => Added(before, after, hash, user, t.mint + cfg.refreshTTL) && outcome == Failed
  }

  /** A replay of a revoked row: with a successor, and revoked at most the grace window ago and not in the future, it is
      issued a token of its own; otherwise it is a reuse, and unless that statement fails the user's rows are revoked. */
  ghost predicate ReplayInWords(cfg: Config, before: map<Hash, Row>, row: Row, again: Hash, active: bool, t: Times, f: Faults,
                                after: map<Hash, Row>, outcome: Outcome)
    requires row.revokedAt.Some?
  {
    if row.replacedBy != None && row.revokedAt.value <= t.judge <= row.revokedAt.value + cfg.graceWindow
    then IssuedInWords(cfg, before, row.user, again, active, t, f, after, outcome)
    else outcome == Reused && if f.sweep then after == before else UserRevoked(before, after, row.user, t.sweep)
  }

  lemma IssueLaw(cfg: Config, rows: map<Hash, Row>, user: User, hash: Hash, active: bool, t: Times, f: Faults)
    ensures var (after, outcome) := Issued(cfg, rows, user, hash, active, t, f);
            IssuedInWords(cfg, rows, user, hash, active, t, f, after, outcome)
  {}

  lemma ReplayLaw(cfg: Config, rows: map<Hash, Row>, row: Row, again: Hash, active: bool, t: Times, f: Faults)
    requires row.revokedAt.Some?
    ensures var (after, outcome) := ReplayAlone(cfg, rows, row, again, active, t, f);
            ReplayInWords(cfg, rows, row, again, active, t, f, after, outcome)
  {
    IssueLaw(cfg, rows, row.user, again, active, t, f);
    RevokingUserInWords(rows, row.user, t.sweep);
    hide IssuedInWords, UserRevoked, Issued, RevokeByUser;
  }

  /** A token read as revoked is judged as a replay, at once. */
  lemma ReplayedToken(cfg: Config, rows: map<Hash, Row>, presented: Hash, made: Hash, again: Hash, active: bool, t: Times,
                      f: Faults, others: map<Hash, Row> -> map<Hash, Row>)
    requires !f.read && presented in rows && rows[presented].revokedAt.Some?
    ensures var (after, outcome) := Refresh(cfg, rows, presented, made, again, active, t, f, others);
            ReplayInWords(cfg, rows, rows[presented], again, active, t, f, after, outcome)
  {
    ReplayLaw(cfg, rows, rows[presented], again, active, t, f);
    hide ReplayInWords, ReplayAlone;
  }

  /** A token read as live, and what its conditional revoke finds: still live, it is replaced and its user issued the
      successor; otherwise the second read decides between a replay of the row as it is now and a reuse. */
  lemma LiveToken(cfg: Config, rows: map<Hash, Row>, presented: Hash, made: Hash, again: Hash, active: bool, t: Times,
                  f: Faults, others: map<Hash, Row> -> map<Hash, Row>)
    requires !f.read && presented in rows && rows[presented].revokedAt == None && t.read <= rows[presented].expiresAt
    ensures var (after, outcome) := Refresh(cfg, rows, presented, made, again, active, t, f, others);
            var now, user := others(rows), rows[presented].user;
            if f.revoke.NotDone? then after == now && outcome == Failed
            else if presented in now && now[presented].revokedAt == None then
              exists replaced :: Replaced(now, replaced, presented, made, t.revoke) &&
                if f.revoke.Unanswered? then after == replaced && outcome == Failed
                else IssuedInWords(cfg, replaced, user, made, active, t, f, after, outcome)
            else if f.revoke.Unanswered? then after == now && outcome == Failed
            else if !f.reread && presented in now then ReplayInWords(cfg, now, now[presented], again, active, t, f, after, outcome)
            else outcome == Reused && if f.sweep then after == now else UserRevoked(now, after, user, t.sweep)
  {
    var now, user := others(rows), rows[presented].user;
    var replaced := TokenRotation.RevokeByHash(now, presented, made, t.revoke).0;
    ConditionalRevokeInWords(now, presented, made, t.revoke);
    IssueLaw(cfg, replaced, user, made, active, t, f);
    RevokingUserInWords(now, user, t.sweep);
    if presented in now && now[presented].revokedAt.Some? { ReplayLaw(cfg, now, now[presented], again, active, t, f); }
    hide ReplayInWords, IssuedInWords, ReplayAlone, Issued, UserRevoked, Replaced, RevokeByUser;
  }

  /** What a step of the interleaved system does to the table: a logout and a sweep revoke the user's rows, a login and a
      mint add one, the daily job drops expired ones, a conditional revoke replaces its row if that is live, and no other
      step changes anything. */
  lemma StepsInWords(cfg: Config, s: State, a: Action)
    requires Enabled(s, a)
    ensures var t := Step(cfg, s, a).table;
            match a
            case Logout(user, now) => UserRevoked(s.table, t, user, now)
            case Sweep(c, now) => UserRevoked(s.table, t, s.calls[c].user, now)
            case Login(user, made, now) => Added(s.table, t, made, user, now + cfg.refreshTTL)
            case Mint(c, now) => Added(s.table, t, s.calls[c].hash, s.calls[c].user, now + cfg.refreshTTL)
            case MintUnanswered(c, now) => Added(s.table, t, s.calls[c].hash, s.calls[c].user, now + cfg.refreshTTL)
            case DeleteExpired(now) => forall h :: h in t <==> h in s.table && now <= s.table[h].expiresAt
            case Revoke(c, made, now) => RevokedIfLive(s.table, t, s.calls[c].presented, made, now)
            case RevokeUnanswered(c, made, now) => RevokedIfLive(s.table, t, s.calls[c].presented, made, now)
            case _ => t == s.table
  {
    match a
    case Logout(user, now) => RevokingUserInWords(s.table, user, now);
    case Sweep(c, now) => RevokingUserInWords(s.table, s.calls[c].user, now);
    case DeleteExpired(now) =>
      forall h ensures h in DeleteExpiredRows(s.table, now) <==> h in s.table && now <= s.table[h].expiresAt {
        DeletingExpiredInWords(s.table, now, h);
      }
    case Revoke(c, made, now) => ConditionalRevokeInWords(s.table, s.calls[c].presented, made, now);
    case RevokeUnanswered(c, made, now) => ConditionalRevokeInWords(s.table, s.calls[c].presented, made, now);
    case _ =>
  }

  ghost predicate RevokedIfLive(before: map<Hash, Row>, after: map<Hash, Row>, hash: Hash, successor: Hash, now: int) {
    if hash in before && before[hash].revokedAt == None then Replaced(before, after, hash, successor, now) else after == before
  }
}
