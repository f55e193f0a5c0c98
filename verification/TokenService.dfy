/** The refresh request as the service runs it, statement by statement; any statement may fail. Other requests may change
    the table in any way between its first read and its conditional revoke; TokenRotation treats every interleaving. */
module TokenService {
  import opened Options
  import opened TokenRotation

  /** The clock as the steps of one request read it. */
  datatype Times = Times(read: int, revoke: int, judge: int, sweep: int, mint: int)

  /** A statement that writes takes effect and answers, does nothing and fails, or takes effect and its answer is lost. */
  datatype Fate = Answered | NotDone | Unanswered

  /** What goes wrong for one request. A token that cannot be generated counts with the statement that would follow or
      precede it: the conditional revoke for a rotation, the user lookup for a grace replay. */
  datatype Faults = Faults(read: bool, revoke: Fate, reread: bool, sweep: bool, lookup: bool, mint: Fate)

  class TokenTable {
    var rows: map<Hash, Row>

    constructor ()
      ensures rows == map[]
    {
      rows := map[];
    }

    /** None is an error. */
    method GetByHash(hash: Hash, fails: bool) returns (answer: Option<Option<Row>>)
      ensures answer == if fails then None else if hash in rows then Some(Some(rows[hash])) else Some(None)
    {
      if fails {
        return None;
      }
      return Some(if hash in rows then Some(rows[hash]) else None);
    }

    /** None is an error. */
    method RevokeByHash(hash: Hash, successor: Hash, now: int, fate: Fate) returns (revoked: Option<bool>)
      modifies this
      ensures rows == if fate.NotDone? then old(rows) else TokenRotation.RevokeByHash(old(rows), hash, successor, now).0
      ensures revoked ==
              if fate.Answered? then Some(TokenRotation.RevokeByHash(old(rows), hash, successor, now).1) else None
    {
      if fate.NotDone? {
        return None;
      }
      var live := hash in rows && rows[hash].revokedAt.None?;
      if live {
        rows := rows[hash := rows[hash].(revokedAt := Some(now), replacedBy := Some(successor))];
      }
      return if fate.Answered? then Some(live) else None;
    }

    /** Its error is of no interest to the service. */
    method RevokeByUserID(user: User, now: int, fails: bool)
      modifies this
      ensures rows == Swept(old(rows), user, now, fails)
    {
      if !fails {
        rows := RevokeByUser(rows, user, now);
      }
    }

    /** What other requests do meanwhile. */
    method Meanwhile(others: map<Hash, Row> -> map<Hash, Row>)
      modifies this
      ensures rows == others(old(rows))
    {
      rows := others(rows);
    }

    method Create(user: User, hash: Hash, expiresAt: int, fate: Fate) returns (created: bool)
      modifies this
      ensures rows == if fate.NotDone? then old(rows) else old(rows)[hash := Row(user, expiresAt, None, None)]
      ensures created == fate.Answered?
    {
      if !fate.NotDone? {
        rows := rows[hash := Row(user, expiresAt, None, None)];
      }
      return fate.Answered?;
    }
  }

  function Swept(rows: map<Hash, Row>, user: User, now: int, fails: bool): map<Hash, Row> {
    if fails then rows else RevokeByUser(rows, user, now)
  }

  /** From the user lookup on. */
  function Issued(cfg: Config, rows: map<Hash, Row>, user: User, hash: Hash, active: bool, t: Times, f: Faults):
    (map<Hash, Row>, Outcome)
  {
    if f.lookup then (rows, Failed)
    else if !active then (rows, UserInactive)
    else if f.mint.NotDone? then (rows, Failed)
    else (rows[hash := Row(user, t.mint + cfg.refreshTTL, None, None)], if f.mint.Answered? then Minted(hash) else Failed)
  }

  /** A replay's outcome and table. */
  function ReplayAlone(cfg: Config, rows: map<Hash, Row>, row: Row, again: Hash, active: bool, t: Times, f: Faults):
    (map<Hash, Row>, Outcome)
  {
    if GraceEligible(cfg, row, t.judge) then Issued(cfg, rows, row.user, again, active, t, f)
    else (Swept(rows, row.user, t.sweep, f.sweep), Reused)
  }

  /** From the conditional revoke on: `made` is the successor it records, `again` the token a grace replay generates. */
  function AfterRace(cfg: Config, rows: map<Hash, Row>, presented: Hash, stored: Row, made: Hash, again: Hash, active: bool,
                     t: Times, f: Faults): (map<Hash, Row>, Outcome)
  {
    var (rotated, won) := TokenRotation.RevokeByHash(rows, presented, made, t.revoke);
    if f.revoke.NotDone? then (rows, Failed)
    else if f.revoke.Unanswered? then (rotated, Failed)
    else if won then Issued(cfg, rotated, stored.user, made, active, t, f)
    else
      match AfterReread(rows, presented, stored)
      case Judging(_, row) =>
        if f.reread then (Swept(rows, stored.user, t.sweep, f.sweep), Reused) else ReplayAlone(cfg, rows, row, again, active, t, f)
      case _ => (Swept(rows, stored.user, t.sweep, f.sweep), Reused)
  }

  /** A whole request's outcome and table; `others` is what happens between its first read and its conditional revoke. */
  function Refresh(cfg: Config, rows: map<Hash, Row>, presented: Hash, made: Hash, again: Hash, active: bool, t: Times,
                   f: Faults, others: map<Hash, Row> -> map<Hash, Row>): (map<Hash, Row>, Outcome)
  {
    if f.read then (rows, Failed)
    else
      match AfterRead(rows, presented, t.read)
      case Finished(_, outcome) => (rows, outcome)
      case Judging(_, row) => ReplayAlone(cfg, rows, row, again, active, t, f)
      case _ => AfterRace(cfg, others(rows), presented, rows[presented], made, again, active, t, f)
  }

  /** Nobody interferes. */
  function RefreshAlone(cfg: Config, rows: map<Hash, Row>, presented: Hash, made: Hash, again: Hash, active: bool, t: Times,
                        f: Faults): (map<Hash, Row>, Outcome)
  {
    Refresh(cfg, rows, presented, made, again, active, t, f, r => r)
  }

  /** The user lookup, and the insert of an already generated token. */
  method IssueTokenPair(cfg: Config, table: TokenTable, user: User, hash: Hash, active: bool, t: Times, f: Faults)
    returns (outcome: Outcome)
    modifies table
    ensures (table.rows, outcome) == Issued(cfg, old(table.rows), user, hash, active, t, f)
  {
    if f.lookup {
      return Failed;
    }
    if !active {
      return UserInactive;
    }
    var created := table.Create(user, hash, t.mint + cfg.refreshTTL, f.mint);
    return if created then Minted(hash) else Failed;
  }

  method HandleTokenReuse(cfg: Config, table: TokenTable, stored: Row, again: Hash, active: bool, t: Times, f: Faults)
    returns (outcome: Outcome)
    requires stored.revokedAt.Some?
    modifies table
    ensures (table.rows, outcome) == ReplayAlone(cfg, old(table.rows), stored, again, active, t, f)
  {
    var age := t.judge - stored.revokedAt.value;
    var graceEligible := stored.replacedBy.Some? && age >= 0 && age <= cfg.graceWindow;
    if !graceEligible {
      table.RevokeByUserID(stored.user, t.sweep, f.sweep);
      return Reused;
    }
    outcome := IssueTokenPair(cfg, table, stored.user, again, active, t, f);
  }

  method RefreshTokens(cfg: Config, table: TokenTable, presented: Hash, made: Hash, again: Hash, active: bool, t: Times,
                       f: Faults, others: map<Hash, Row> -> map<Hash, Row>) returns (outcome: Outcome)
    modifies table
    ensures (table.rows, outcome) == Refresh(cfg, old(table.rows), presented, made, again, active, t, f, others)
  {
    var read := table.GetByHash(presented, f.read);
    if read.None? {
      return Failed;
    }
    var stored := read.value;
    if stored.None? {
      return InvalidToken;
    }
    if stored.value.revokedAt.Some? {
      outcome := HandleTokenReuse(cfg, table, stored.value, again, active, t, f);
      return;
    }
    if stored.value.expiresAt < t.read {
      return Expired;
    }
    table.Meanwhile(others);
    var revoked := table.RevokeByHash(presented, made, t.revoke, f.revoke);
    if revoked.None? {
      return Failed;
    }
    if !revoked.value {
      var current := table.GetByHash(presented, f.reread);
      if current.Some? && current.value.Some? && current.value.value.revokedAt.Some? {
        outcome := HandleTokenReuse(cfg, table, current.value.value, again, active, t, f);
        return;
      }
      table.RevokeByUserID(stored.value.user, t.sweep, f.sweep);
      return Reused;
    }
    outcome := IssueTokenPair(cfg, table, stored.value.user, made, active, t, f);
  }

  // ----- the service code is a run of the steps -----

  /** From s these steps, each enabled where it is taken, lead to t. */
  ghost predicate Runs(cfg: Config, s: State, actions: seq<Action>, t: State)
    decreases |actions|
  {
    if actions == [] then s == t
    else Enabled(s, actions[0]) && Runs(cfg, Step(cfg, s, actions[0]), actions[1..], t)
  }

  lemma RunsFirst(cfg: Config, s: State, a: Action, rest: seq<Action>, t: State)
    requires Enabled(s, a) && Runs(cfg, Step(cfg, s, a), rest, t)
    ensures Runs(cfg, s, [a] + rest, t)
  {}

  /** The request's first read. */
  function FirstRead(c: CallId, t: Times, f: Faults): Action {
    if f.read then Fail(c) else Read(c, t.read)
  }

  /** The system once this request has begun and read its token. */
  ghost function ReadState(s: State, c: CallId, presented: Hash, t: Times, f: Faults): State {
    var next := if f.read then Finished(presented, Failed) else AfterRead(s.table, presented, t.read);
    Goto(Goto(s, c, Reading(presented)), c, next)
  }

  /** The request runs on from u and ends with this table and outcome. */
  ghost predicate EndsAs(cfg: Config, u: State, c: CallId, actions: seq<Action>, last: State, result: (map<Hash, Row>, Outcome)) {
    && Runs(cfg, u, actions, last)
    && c in last.calls && last.calls[c].Finished? && (last.table, last.calls[c].outcome) == result
  }

  /** One more step in front. */
  lemma EndsLater(cfg: Config, u: State, c: CallId, a: Action, actions: seq<Action>, last: State, result: (map<Hash, Row>, Outcome))
    requires Enabled(u, a) && EndsAs(cfg, Step(cfg, u, a), c, actions, last, result)
    ensures EndsAs(cfg, u, c, [a] + actions, last, result)
  {
    RunsFirst(cfg, u, a, actions, last);
  }

  /** The request is over. */
  lemma EndsNow(cfg: Config, u: State, c: CallId)
    requires c in u.calls && u.calls[c].Finished?
    ensures EndsAs(cfg, u, c, [], u, (u.table, u.calls[c].outcome))
  {}

  /** One step ends the request. */
  lemma StepEnds(cfg: Config, u: State, c: CallId, a: Action) returns (actions: seq<Action>, last: State)
    requires Enabled(u, a) && c in Step(cfg, u, a).calls && Step(cfg, u, a).calls[c].Finished?
    ensures EndsAs(cfg, u, c, actions, last, (Step(cfg, u, a).table, Step(cfg, u, a).calls[c].outcome))
  {
    last := Step(cfg, u, a);
    EndsNow(cfg, last, c);
    EndsLater(cfg, u, c, a, [], last, (last.table, last.calls[c].outcome));
    actions := [a] + [];
  }

  lemma MintRuns(cfg: Config, u: State, c: CallId, t: Times, f: Faults) returns (actions: seq<Action>, last: State)
    requires c in u.calls && u.calls[c].Minting? && !f.lookup
    ensures var call := u.calls[c];
            EndsAs(cfg, u, c, actions, last, Issued(cfg, u.table, call.user, call.hash, true, t, f))
  {
    hide EndsAs;
    match f.mint
    case Answered => actions, last := StepEnds(cfg, u, c, Mint(c, t.mint));
    case NotDone => actions, last := StepEnds(cfg, u, c, Fail(c));
    case Unanswered => actions, last := StepEnds(cfg, u, c, MintUnanswered(c, t.mint));
  }

  lemma LookupRuns(cfg: Config, u: State, c: CallId, active: bool, made: Hash, t: Times, f: Faults)
    returns (actions: seq<Action>, last: State)
    requires c in u.calls && u.calls[c].Looking? && made !in u.used
    ensures var call := u.calls[c];
            var hash := if call.successor.Some? then call.successor.value else made;
            EndsAs(cfg, u, c, actions, last, Issued(cfg, u.table, call.user, hash, active, t, f))
  {
    hide EndsAs;
    var call := u.calls[c];
    var hash := if call.successor.Some? then call.successor.value else made;
    if f.lookup {
      actions, last := StepEnds(cfg, u, c, Fail(c));
    } else if !active {
      actions, last := StepEnds(cfg, u, c, Lookup(c, active, made));
    } else {
      actions, last := MintRuns(cfg, Step(cfg, u, Lookup(c, active, made)), c, t, f);
      EndsLater(cfg, u, c, Lookup(c, active, made), actions, last, Issued(cfg, u.table, call.user, hash, active, t, f));
      actions := [Lookup(c, active, made)] + actions;
    }
  }

  lemma SweepRuns(cfg: Config, u: State, c: CallId, t: Times, f: Faults) returns (actions: seq<Action>, last: State)
    requires c in u.calls && u.calls[c].Sweeping?
    ensures EndsAs(cfg, u, c, actions, last, (Swept(u.table, u.calls[c].user, t.sweep, f.sweep), Reused))
  {
    hide EndsAs;
    actions, last := StepEnds(cfg, u, c, if f.sweep then SweepFailed(c) else Sweep(c, t.sweep));
  }

  lemma ReplayRuns(cfg: Config, u: State, c: CallId, made: Hash, active: bool, t: Times, f: Faults)
    returns (actions: seq<Action>, last: State)
    requires c in u.calls && u.calls[c].Judging? && made !in u.used
    ensures EndsAs(cfg, u, c, actions, last, ReplayAlone(cfg, u.table, u.calls[c].row, made, active, t, f))
  {
    hide EndsAs, Issued, Swept;
    var judged := Step(cfg, u, Judge(c, t.judge));
    if GraceEligible(cfg, u.calls[c].row, t.judge) {
      actions, last := LookupRuns(cfg, judged, c, active, made, t, f);
    } else {
      actions, last := SweepRuns(cfg, judged, c, t, f);
    }
    EndsLater(cfg, u, c, Judge(c, t.judge), actions, last, ReplayAlone(cfg, u.table, u.calls[c].row, made, active, t, f));
    actions := [Judge(c, t.judge)] + actions;
  }

  /** From the second read on. */
  lemma RereadRuns(cfg: Config, u: State, c: CallId, again: Hash, active: bool, t: Times, f: Faults)
    returns (actions: seq<Action>, last: State)
    requires c in u.calls && u.calls[c].Rereading? && again !in u.used
    ensures var call := u.calls[c];
            EndsAs(cfg, u, c, actions, last,
                   match AfterReread(u.table, call.presented, call.stored)
                   case Judging(_, row) =>
                     if f.reread then (Swept(u.table, call.stored.user, t.sweep, f.sweep), Reused)
                     else ReplayAlone(cfg, u.table, row, again, active, t, f)
                   case _ => (Swept(u.table, call.stored.user, t.sweep, f.sweep), Reused))
  {
    hide EndsAs, ReplayAlone, Swept;
    var a := if f.reread then RereadFailed(c) else Reread(c);
    var reread := Step(cfg, u, a);
    if reread.calls[c].Judging? {
      actions, last := ReplayRuns(cfg, reread, c, again, active, t, f);
      EndsLater(cfg, u, c, a, actions, last, ReplayAlone(cfg, u.table, reread.calls[c].row, again, active, t, f));
    } else {
      actions, last := SweepRuns(cfg, reread, c, t, f);
      EndsLater(cfg, u, c, a, actions, last, (Swept(u.table, u.calls[c].stored.user, t.sweep, f.sweep), Reused));
    }
    actions := [a] + actions;
  }

  lemma RevokeRuns(cfg: Config, u: State, c: CallId, made: Hash, again: Hash, active: bool, t: Times, f: Faults)
    returns (actions: seq<Action>, last: State)
    requires c in u.calls && u.calls[c].Revoking? && made !in u.used && again !in u.used && made != again
    ensures var call := u.calls[c];
            EndsAs(cfg, u, c, actions, last, AfterRace(cfg, u.table, call.presented, call.stored, made, again, active, t, f))
  {
    hide EndsAs, ReplayAlone, Swept, Issued;
    var call := u.calls[c];
    var result := AfterRace(cfg, u.table, call.presented, call.stored, made, again, active, t, f);
    match f.revoke
    case NotDone => actions, last := StepEnds(cfg, u, c, Fail(c));
    case Unanswered => actions, last := StepEnds(cfg, u, c, RevokeUnanswered(c, made, t.revoke));
    case Answered =>
      var revoked := Step(cfg, u, Revoke(c, made, t.revoke));
      if TokenRotation.RevokeByHash(u.table, call.presented, made, t.revoke).1 {
        actions, last := LookupRuns(cfg, revoked, c, active, again, t, f);
      } else {
        actions, last := RereadRuns(cfg, revoked, c, again, active, t, f);
      }
      EndsLater(cfg, u, c, Revoke(c, made, t.revoke), actions, last, result);
      actions := [Revoke(c, made, t.revoke)] + actions;
  }

  /** The service code is a run of the interleaved system: begun and read in s, and, when it goes on to its conditional
      revoke, resumed in any state u the others have led to meanwhile. */
  lemma ServiceIsARun(cfg: Config, s: State, u: State, c: CallId, presented: Hash, made: Hash, again: Hash, active: bool,
                      t: Times, f: Faults, others: map<Hash, Row> -> map<Hash, Row>)
    returns (actions: seq<Action>, last: State)
    requires c !in s.calls && made !in u.used && again !in u.used && made != again
    requires var read := ReadState(s, c, presented, t, f);
             if read.calls[c].Revoking? then c in u.calls && u.calls[c] == read.calls[c] && u.table == others(s.table)
             else u == read
    ensures Runs(cfg, s, [Begin(c, presented), FirstRead(c, t, f)], ReadState(s, c, presented, t, f))
    ensures EndsAs(cfg, u, c, actions, last, Refresh(cfg, s.table, presented, made, again, active, t, f, others))
  {
    var begun := Step(cfg, s, Begin(c, presented));
    var read := Step(cfg, begun, FirstRead(c, t, f));
    RunsFirst(cfg, begun, FirstRead(c, t, f), [], read);
    RunsFirst(cfg, s, Begin(c, presented), [FirstRead(c, t, f)], read);
    assert [Begin(c, presented)] + [FirstRead(c, t, f)] == [Begin(c, presented), FirstRead(c, t, f)];
    assert read == ReadState(s, c, presented, t, f);
    hide Runs, EndsAs, AfterRace, ReplayAlone;
    if read.calls[c].Revoking? {
      actions, last := RevokeRuns(cfg, u, c, made, again, active, t, f);
    } else if read.calls[c].Judging? {
      actions, last := ReplayRuns(cfg, u, c, again, active, t, f);
    } else {
      actions, last := [], u;
      EndsNow(cfg, u, c);
    }
  }

  /** Losing the conditional revoke to another rotation gets exactly the verdict, and leaves exactly the table, of a
      replay that only arrives afterwards; when the second read fails, it is a reuse and is swept. */
  lemma LoserIsTreatedAsReplay(cfg: Config, rows: map<Hash, Row>, presented: Hash, winner: Hash, wonAt: int, made: Hash,
                               again: Hash, active: bool, t: Times, f: Faults)
    requires presented in rows && rows[presented].revokedAt.None? && !(rows[presented].expiresAt < t.read)
    requires !f.read && f.revoke.Answered?
    ensures var others := (r: map<Hash, Row>) => TokenRotation.RevokeByHash(r, presented, winner, wonAt).0;
            Refresh(cfg, rows, presented, made, again, active, t, f, others)
            == if f.reread then (Swept(others(rows), rows[presented].user, t.sweep, f.sweep), Reused)
               else RefreshAlone(cfg, others(rows), presented, made, again, active, t, f)
  {}

  /** A request whose conditional revoke took effect, whatever became of it afterwards, and a replay of the old token.
      Inside the window a replay touches no row but its own new one and mints it unless a statement fails; outside it the
      replay mints nothing and, unless the sweep fails, leaves the user no live token. */
  lemma ReplayAfterRotation(cfg: Config, rows: map<Hash, Row>, presented: Hash, first: Hash, unused: Hash, second: Hash,
                            active: bool, t: Times, u: Times, f: Faults, g: Faults)
    requires presented in rows && first !in rows && second !in rows && first != second
    requires rows[presented].revokedAt.None? && !(rows[presented].expiresAt < t.read) && !f.read && !f.revoke.NotDone?
    ensures var after := RefreshAlone(cfg, rows, presented, first, unused, active, t, f).0;
            var (last, outcome) := RefreshAlone(cfg, after, presented, unused, second, true, u, g);
            if g.read then last == after && outcome == Failed
            else if 0 <= u.judge - t.revoke <= cfg.graceWindow then
              && (forall h | h in after :: h in last && last[h] == after[h]) && last.Keys <= after.Keys + {second}
              && (!g.lookup && !g.mint.NotDone? ==> second in last)
              && outcome == if !g.lookup && g.mint.Answered? then Minted(second) else Failed
            else
              && outcome == Reused && last.Keys == after.Keys
              && (!g.sweep ==> forall h | h in last && last[h].user == rows[presented].user :: last[h].revokedAt.Some?)
  {
    LinkStays(cfg, rows, presented, first, unused, active, t, f);
    hide AfterRace;
  }

  /** After a conditional revoke that took effect the token stays revoked and linked. */
  lemma LinkStays(cfg: Config, rows: map<Hash, Row>, presented: Hash, first: Hash, unused: Hash, active: bool, t: Times, f: Faults)
    requires presented in rows && first !in rows && rows[presented].revokedAt.None? && !(rows[presented].expiresAt < t.read)
    requires !f.read && !f.revoke.NotDone?
    ensures var after := RefreshAlone(cfg, rows, presented, first, unused, active, t, f).0;
            presented in after && after[presented] == rows[presented].(revokedAt := Some(t.revoke), replacedBy := Some(first))
  {
    hide RevokeByUser;
  }

  /** Whatever fails, every other user's rows are as before. */
  lemma OtherUsersUntouched(cfg: Config, rows: map<Hash, Row>, presented: Hash, made: Hash, again: Hash, active: bool,
                            t: Times, f: Faults, h: Hash)
    requires presented in rows && made !in rows && again !in rows && h in rows && rows[h].user != rows[presented].user
    ensures var last := RefreshAlone(cfg, rows, presented, made, again, active, t, f).0; h in last && last[h] == rows[h]
  {}
}
