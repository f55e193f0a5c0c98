/** The encrypt-integration-keys backfill: plan from one read, rewrite in one transaction, check again. */
module KeyBackfill {
  import opened Options
  import opened LayeredKeys

  type Id = string

  datatype Integration = Integration(projectID: string, extensionID: string, agentKey: Option<string>)

  type Table = map<Id, Integration>

  class KeyTable {
    var rows: Table

    constructor (initial: Table)
      ensures rows == initial
    {
      rows := initial;
    }

    /** Whatever other sessions commit between the read and the transaction. */
    method Meanwhile(others: Table -> Table)
      modifies this
      ensures rows == others(old(rows))
    {
      rows := others(rows);
    }

    method Commit(work: Table)
      modifies this
      ensures rows == work
    {
      rows := work;
    }
  }

  /** A row the load query returns; an empty filter means all projects. */
  predicate Loaded(rows: Table, filter: string, id: Id) {
    id in rows && rows[id].agentKey.Some? && rows[id].agentKey.value != "" && (filter == "" || rows[id].projectID == filter)
  }

  /** What the load query may return; created_at decides the order, and nothing depends on it. */
  ghost predicate IsLoad(rows: Table, filter: string, answer: seq<Id>) {
    && (forall id :: id in answer <==> Loaded(rows, filter, id))
    && (forall i, j | 0 <= i < j < |answer| :: answer[i] != answer[j])
  }

  // ----- the plan for one row -----

  datatype Plan = Settled | Rewrite(plain: string) | Refuse

  function PlanFor(c: Cipher, stored: string): Plan {
    match Peel(c, stored, 0)
    case Plain(plain, layers) => if layers == 1 && IsEncrypted(stored) then Settled else Rewrite(plain)
    case _ => Refuse
  }

  function PlanOf(c: Cipher, rows: Table, id: Id): Plan {
    if id in rows && rows[id].agentKey.Some? then PlanFor(c, rows[id].agentKey.value) else Settled
  }

  predicate Pending(c: Cipher, rows: Table, filter: string, id: Id) {
    Loaded(rows, filter, id) && PlanOf(c, rows, id).Rewrite?
  }

  /** The table once the pending rows are rewritten: read on `rows`, written on `now`. */
  ghost function Rewritten(c: Cipher, rows: Table, filter: string, nonce: Id -> Nonce, now: Table): Table {
    map id | id in now ::
      if Pending(c, rows, filter, id)
      then now[id].(agentKey := Some(Encrypt(c, nonce(id), PlanOf(c, rows, id).plain)))
      else now[id]
  }

  /** No other session touched a pending row since the read. */
  ghost predicate PendingUntouched(c: Cipher, rows: Table, filter: string, now: Table) {
    forall id | Pending(c, rows, filter, id) :: SameKey(rows, now, id)
  }

  /** The pre-image the UPDATE's WHERE clause pins. */
  predicate SameKey(rows: Table, now: Table, id: Id) {
    id in rows && id in now && now[id].agentKey == rows[id].agentKey
  }

  // ----- the run -----

  datatype Outcome = Committed | NothingToDo | DryRun | Refused | RoundTripFailed | Conflict | StatementFailed | PostCheckFailed

  /** One run. A statement may fail, other sessions may write before the transaction, any nonce may come up; whatever
      happens the table is either untouched by this run or wholly rewritten. */
  method Backfill(table: KeyTable, c: Cipher, dryRun: bool, filter: string, answer: seq<Id>, nonce: Id -> Nonce,
                  others: Table -> Table, fails: Id -> bool, commitFails: bool, recheck: seq<Id>)
    returns (outcome: Outcome)
    requires IsLoad(table.rows, filter, answer)
    requires IsLoad(Rewritten(c, table.rows, filter, nonce, others(table.rows)), filter, recheck)
    modifies table
    ensures outcome in {Committed, PostCheckFailed} ==>
              && !dryRun && !commitFails && (forall id | Pending(c, old(table.rows), filter, id) :: !fails(id))
              && PendingUntouched(c, old(table.rows), filter, others(old(table.rows)))
              && table.rows == Rewritten(c, old(table.rows), filter, nonce, others(old(table.rows)))
    ensures outcome !in {Committed, PostCheckFailed} ==>
              table.rows == if outcome in {Refused, NothingToDo} then old(table.rows) else others(old(table.rows))
    ensures outcome == Refused <==> exists id :: Loaded(old(table.rows), filter, id) && PlanOf(c, old(table.rows), id).Refuse?
    ensures outcome == NothingToDo <==> forall id | Loaded(old(table.rows), filter, id) :: PlanOf(c, old(table.rows), id).Settled?
    ensures outcome in {Committed, PostCheckFailed} ==>
              (outcome == Committed <==> forall id | id in recheck :: SingleLayer(c, table.rows, id))
    ensures Lawful(c) && dryRun && outcome !in {Refused, NothingToDo} ==> outcome == DryRun
    ensures Lawful(c) && !dryRun && !commitFails && (forall id :: !fails(id)) && outcome !in {Refused, NothingToDo} ==>
              (outcome == Conflict <==> !PendingUntouched(c, old(table.rows), filter, others(old(table.rows))))
              && outcome in {Conflict, Committed, PostCheckFailed}
  {
    hide IsLoad, PlanOf, Rewritten, SingleLayer, PendingUntouched, Loaded;
    var rows := table.rows;
    var refused, pending := Plans(c, rows, filter, answer);
    if refused {
      return Refused;
    }
    if |pending| == 0 {
      return NothingToDo;
    }
    assert Pending(c, rows, filter, pending[0]) by { assert pending[0] in pending; }
    table.Meanwhile(others);
    var stop, work := RewritePending(c, rows, filter, pending, table.rows, dryRun, nonce, fails);
    if stop.Some? {
      return stop.value;
    }
    if dryRun {
      return DryRun;
    }
    if commitFails {
      return StatementFailed;
    }
    table.Commit(work);
    LoadedHaveKeys(work, filter, recheck);
    var ok := Verify(c, work, recheck);
    outcome := if ok then Committed else PostCheckFailed;
  }

  lemma LoadedHaveKeys(rows: Table, filter: string, answer: seq<Id>)
    requires IsLoad(rows, filter, answer)
    ensures forall id | id in answer :: id in rows && rows[id].agentKey.Some?
  {}

  /** The transaction's loop over the pending rows, on the rows as the transaction sees them. */
  method RewritePending(c: Cipher, rows: Table, ghost filter: string, pending: seq<Id>, now: Table, dryRun: bool,
                        nonce: Id -> Nonce, fails: Id -> bool)
    returns (stop: Option<Outcome>, work: Table)
    requires forall id :: id in pending <==> Pending(c, rows, filter, id)
    requires forall i, j | 0 <= i < j < |pending| :: pending[i] != pending[j]
    ensures stop.Some? ==> stop.value in {RoundTripFailed, StatementFailed, Conflict}
    ensures Lawful(c) && dryRun ==> stop == None
    ensures stop.None? && !dryRun ==> forall id | Pending(c, rows, filter, id) :: !fails(id)
    ensures stop.None? && !dryRun ==>
              work == Rewritten(c, rows, filter, nonce, now) && PendingUntouched(c, rows, filter, now)
    ensures Lawful(c) && !dryRun && (forall id :: !fails(id)) ==>
              stop in {None, Some(Conflict)} && (stop.Some? <==> !PendingUntouched(c, rows, filter, now))
  {
    hide Rewritten, PlanOf, Loaded;
    PendingHasKey(c, rows, filter);
    work := now;
    for i := 0 to |pending|
      invariant work.Keys == now.Keys
      invariant forall id | id in now && id !in pending[..i] :: work[id] == now[id]
      invariant !dryRun ==> forall id | id in pending[..i] :: !fails(id) && SameKey(rows, now, id) && work[id] == Resealed(c, rows, nonce, now, id)
    {
      var id := pending[i];
      assert id in pending && id !in pending[..i] && pending[..i + 1] == pending[..i] + [id];
      var plain := PlanOf(c, rows, id).plain;
      var sealed := Encrypt(c, nonce(id), plain);
      var back := Decrypt(c, sealed);
      assert Lawful(c) ==> back == Some(plain) by { if Lawful(c) { SealedRoundTrips(c, nonce(id), plain); } }
      if back != Some(plain) || !IsEncrypted(sealed) {
        return Some(RoundTripFailed), now;
      }
      if !dryRun {
        if fails(id) {
          return Some(StatementFailed), now;
        }
        if !(id in work && work[id].agentKey == rows[id].agentKey) {
          assert Pending(c, rows, filter, id) && !SameKey(rows, now, id);
          return Some(Conflict), now;
        }
        work := work[id := work[id].(agentKey := Some(sealed))];
      }
    }
    assert pending[..|pending|] == pending;
    if !dryRun { WorkIsRewritten(c, rows, filter, nonce, now, pending, work); }
    stop := None;
  }

  lemma PendingHasKey(c: Cipher, rows: Table, filter: string)
    ensures forall id | Pending(c, rows, filter, id) :: id in rows && rows[id].agentKey.Some? && PlanOf(c, rows, id).Rewrite?
  {}

  function Resealed(c: Cipher, rows: Table, nonce: Id -> Nonce, now: Table, id: Id): Integration
    requires id in now && PlanOf(c, rows, id).Rewrite?
  {
    now[id].(agentKey := Some(Encrypt(c, nonce(id), PlanOf(c, rows, id).plain)))
  }

  lemma SealedRoundTrips(c: Cipher, n: Nonce, plain: string)
    requires Lawful(c)
    ensures Decrypt(c, Encrypt(c, n, plain)) == Some(plain)
  {}

  lemma WorkIsRewritten(c: Cipher, rows: Table, filter: string, nonce: Id -> Nonce, now: Table, pending: seq<Id>, work: Table)
    requires forall id :: id in pending <==> Pending(c, rows, filter, id)
    requires work.Keys == now.Keys && forall id | id in now && id !in pending :: work[id] == now[id]
    requires forall id | id in pending :: SameKey(rows, now, id) && PlanOf(c, rows, id).Rewrite?
                                         && work[id] == Resealed(c, rows, nonce, now, id)
    ensures work == Rewritten(c, rows, filter, nonce, now) && PendingUntouched(c, rows, filter, now)
  {}

  /** The loop that plans: it stops at the first row it must refuse. */
  method Plans(c: Cipher, rows: Table, filter: string, answer: seq<Id>) returns (refused: bool, pending: seq<Id>)
    requires IsLoad(rows, filter, answer)
    ensures refused <==> exists id :: Loaded(rows, filter, id) && PlanOf(c, rows, id).Refuse?
    ensures !refused ==> forall id :: id in pending <==> Pending(c, rows, filter, id)
    ensures !refused && pending == [] ==> forall id | Loaded(rows, filter, id) :: PlanOf(c, rows, id).Settled?
    ensures forall i, j | 0 <= i < j < |pending| :: pending[i] != pending[j]
  {
    hide Peel;
    refused, pending := false, [];
    for i := 0 to |answer|
      invariant forall id :: id in pending <==> id in answer[..i] && PlanOf(c, rows, id).Rewrite?
      invariant forall id | id in answer[..i] :: !PlanOf(c, rows, id).Refuse?
      invariant forall j, k | 0 <= j < k < |pending| :: pending[j] != pending[k]
    {
      var id := answer[i];
      assert id in answer && id !in answer[..i] && answer[..i + 1] == answer[..i] + [id];
      var unwrapped := UnwrapLayers(c, rows[id].agentKey.value);
      if !unwrapped.Plain? {
        assert PlanOf(c, rows, id).Refuse?;
        return true, [];
      }
      if !(unwrapped.layers == 1 && IsEncrypted(rows[id].agentKey.value)) {
        pending := pending + [id];
      }
    }
    assert answer[..|answer|] == answer;
  }

  predicate SingleLayer(c: Cipher, rows: Table, id: Id) {
    && id in rows && rows[id].agentKey.Some?
    && Peel(c, rows[id].agentKey.value, 0).Plain? && Peel(c, rows[id].agentKey.value, 0).layers == 1
  }

  /** The check on a fresh read. It asks for one layer, not for the tag. */
  method Verify(c: Cipher, rows: Table, answer: seq<Id>) returns (ok: bool)
    requires forall id | id in answer :: id in rows && rows[id].agentKey.Some?
    ensures ok <==> forall id | id in answer :: SingleLayer(c, rows, id)
  {
    hide Peel;
    var plaintextLeft, overEncryptedLeft := 0, 0;
    for i := 0 to |answer|
      invariant plaintextLeft >= 0 && overEncryptedLeft >= 0
      invariant plaintextLeft == 0 && overEncryptedLeft == 0 <==> forall j | 0 <= j < i :: SingleLayer(c, rows, answer[j])
    {
      assert answer[i] in answer;
      var unwrapped := UnwrapLayers(c, rows[answer[i]].agentKey.value);
      if !unwrapped.Plain? {
        assert !SingleLayer(c, rows, answer[i]);
        return false;
      }
      if unwrapped.layers == 0 {
        plaintextLeft := plaintextLeft + 1;
      } else if unwrapped.layers >= 2 {
        overEncryptedLeft := overEncryptedLeft + 1;
      }
    }
    ok := plaintextLeft == 0 && overEncryptedLeft == 0;
  }

  // ----- what a finished run leaves -----

  /** A rewritten value is one tagged layer over the plaintext that was under the old value. */
  lemma RewriteIsCanonical(c: Cipher, stored: string, n: Nonce)
    requires Lawful(c) && PlanFor(c, stored).Rewrite?
    ensures var sealed := Encrypt(c, n, PlanFor(c, stored).plain);
            && Peel(c, sealed, 0) == Plain(Peel(c, stored, 0).plain, 1) && IsEncrypted(sealed)
            && PlanFor(c, sealed) == Settled
  {}

  /** A row that was read, and left alone by the others, holds after the run one tagged layer over the plaintext it held
      before; its other columns are as they were, and the next run has nothing to do for it. */
  lemma FinishedRunIsCanonical(c: Cipher, rows: Table, filter: string, nonce: Id -> Nonce, now: Table, id: Id)
    requires Lawful(c) && Loaded(rows, filter, id) && SameKey(rows, now, id) && !PlanOf(c, rows, id).Refuse?
    ensures var after := Rewritten(c, rows, filter, nonce, now);
            && id in after && after[id].agentKey.Some? && after[id].agentKey.value != ""
            && after[id].projectID == now[id].projectID && after[id].extensionID == now[id].extensionID
            && IsEncrypted(after[id].agentKey.value)
            && Peel(c, after[id].agentKey.value, 0) == Plain(Peel(c, rows[id].agentKey.value, 0).plain, 1)
            && PlanOf(c, after, id) == Settled
  {
    hide Peel, Encrypt;
    var stored := rows[id].agentKey.value;
    if PlanFor(c, stored).Rewrite? {
      RewriteIsCanonical(c, stored, nonce(id));
      EncryptIsNotEmpty(c, nonce(id), PlanFor(c, stored).plain);
    }
  }

  lemma EncryptIsNotEmpty(c: Cipher, n: Nonce, plain: string)
    ensures Encrypt(c, n, plain) != ""
  {}

  /** With nobody else writing, a run that refused no row leaves a table on which the next run has nothing to do and the
      check passes. */
  lemma RerunFindsNothing(c: Cipher, rows: Table, filter: string, nonce: Id -> Nonce)
    requires Lawful(c) && forall id | Loaded(rows, filter, id) :: !PlanOf(c, rows, id).Refuse?
    ensures var after := Rewritten(c, rows, filter, nonce, rows);
            forall id | Loaded(after, filter, id) :: PlanOf(c, after, id) == Settled && SingleLayer(c, after, id)
  {
    hide Peel, PlanFor, Encrypt;
    var after := Rewritten(c, rows, filter, nonce, rows);
    forall id | Loaded(after, filter, id) ensures PlanOf(c, after, id) == Settled && SingleLayer(c, after, id) {
      assert Loaded(rows, filter, id);
      FinishedRunIsCanonical(c, rows, filter, nonce, rows, id);
    }
  }

  /** The check is weaker than the target shape exactly for one untagged layer: such a row passes it and is still due. */
  lemma CheckMissesUntaggedLayer(c: Cipher, stored: string)
    requires Peel(c, stored, 0).Plain? && Peel(c, stored, 0).layers == 1
    ensures PlanFor(c, stored).Rewrite? <==> !IsEncrypted(stored)
  {}

  lemma UntaggedLayerPassesCheck(c: Cipher, plain: string, n: Nonce)
    requires Lawful(c) && IsPlaintext(c, plain)
    ensures var rows: Table := map["i" := Integration("", "", Some(Wrap(c, plain, [Layer(false, n)])))];
            SingleLayer(c, rows, "i") && PlanOf(c, rows, "i") == Rewrite(plain)
  {
    var layer := Layer(false, n);
    UnwrapUndoesWrap(c, plain, [layer]);
    assert Wrap(c, plain, []) == plain;
    OneLayerComesOff(c, layer, plain);
  }
}
