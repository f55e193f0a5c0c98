/** What a backfill makes of each stored key, told in the layers it is under. */
module BackfillLaws {
  import opened Options
  import opened LayeredKeys
  import opened KeyBackfill

  /** The text is a plaintext under n layers: opened n times, with or without the tag in front, it ends at text that has no
      tag and does not open. */
  ghost predicate Under(c: Cipher, stored: string, plain: string, n: nat)
    decreases n
  {
    var tagged := "enc:v1:" <= stored;
    var inner := c.open(if tagged then stored[7..] else stored);
    if n == 0 then !tagged && inner.None? && plain == stored else inner.Some? && Under(c, inner.value, plain, n - 1)
  }

  /** Unwrapping finds the plaintext and the number of layers, up to three, and nothing else. */
  lemma {:induction false} PeeledIsUnder(c: Cipher, cur: string, done: nat, plain: string, n: nat)
    requires Lawful(c) && done <= 4
    ensures Peel(c, cur, done) == Plain(plain, n) <==> done <= n <= 3 && Under(c, cur, plain, n - done)
    decreases 4 - done
  {
    if done < 4 {
      var next := Decrypt(c, cur);
      assert PREFIX == "enc:v1:" && |PREFIX| == 7;
      if next.Some? && (IsEncrypted(cur) || next.value != cur) {
        PeeledIsUnder(c, next.value, done + 1, plain, n);
      }
    }
  }

  /** A stored key the load query returns. */
  predicate HasKey(rows: Table, filter: string, id: Id) {
    id in rows && rows[id].agentKey != None && rows[id].agentKey != Some("") && (filter == "" || rows[id].projectID == filter)
  }

  /** It is one tagged layer already. */
  ghost predicate InShape(c: Cipher, stored: string) {
    "enc:v1:" <= stored && exists plain :: Under(c, stored, plain, 1)
  }

  ghost predicate Readable(c: Cipher, stored: string) {
    exists plain, n :: 0 <= n <= 3 && Under(c, stored, plain, n)
  }

  lemma PlanInWords(c: Cipher, stored: string)
    requires Lawful(c)
    ensures PlanFor(c, stored).Refuse? <==> !Readable(c, stored)
    ensures PlanFor(c, stored).Settled? <==> InShape(c, stored)
    ensures forall plain :: PlanFor(c, stored) == Rewrite(plain) <==>
              !InShape(c, stored) && exists n :: 0 <= n <= 3 && Under(c, stored, plain, n)
  {
    var r := Peel(c, stored, 0);
    hide Peel, Under;
    if r.Plain? { PeeledIsUnder(c, stored, 0, r.plain, r.layers); }
    forall plain, n: nat | n <= 3 && Under(c, stored, plain, n) ensures r == Plain(plain, n) {
      PeeledIsUnder(c, stored, 0, plain, n);
    }
    forall plain ensures PlanFor(c, stored) == Rewrite(plain) <==>
                           !InShape(c, stored) && exists n :: 0 <= n <= 3 && Under(c, stored, plain, n)
    {
      if PlanFor(c, stored) == Rewrite(plain) { assert 0 <= r.layers <= 3 && Under(c, stored, plain, r.layers); }
    }
  }

  /** What a committed run leaves of each row of the table it wrote to: without a key, outside the chosen project or in
      shape already, it is as it was; any other that was read holds its plaintext under one fresh tagged layer, its other
      columns as they were. */
  lemma RowAfterRun(c: Cipher, rows: Table, filter: string, nonce: Id -> Nonce, now: Table, id: Id)
    requires Lawful(c) && id in now
    ensures Rewritten(c, rows, filter, nonce, now).Keys == now.Keys
    ensures var after := Rewritten(c, rows, filter, nonce, now)[id];
            if !HasKey(rows, filter, id) || InShape(c, rows[id].agentKey.value) || !Readable(c, rows[id].agentKey.value)
            then after == now[id]
            else exists plain, n :: 0 <= n <= 3 && Under(c, rows[id].agentKey.value, plain, n)
                   && after == Integration(now[id].projectID, now[id].extensionID, Some("enc:v1:" + c.seal(nonce(id), plain)))
  {
    if HasKey(rows, filter, id) { PlanInWords(c, rows[id].agentKey.value); }
    hide PlanFor, InShape, Under;
    if Pending(c, rows, filter, id) {
      var plain := PlanOf(c, rows, id).plain;
      assert PlanFor(c, rows[id].agentKey.value) == Rewrite(plain);
      var n :| 0 <= n <= 3 && Under(c, rows[id].agentKey.value, plain, n);
    }
  }

  /** The run is refused, or has nothing to do, or checks out, in these words. */
  lemma RunConditions(c: Cipher, rows: Table, filter: string, id: Id)
    requires Lawful(c)
    ensures Loaded(rows, filter, id) <==> HasKey(rows, filter, id)
    ensures Loaded(rows, filter, id) ==>
              && (PlanOf(c, rows, id).Refuse? <==> !Readable(c, rows[id].agentKey.value))
              && (PlanOf(c, rows, id).Settled? <==> InShape(c, rows[id].agentKey.value))
              && (SingleLayer(c, rows, id) <==> exists plain :: Under(c, rows[id].agentKey.value, plain, 1))
  {
    if Loaded(rows, filter, id) {
      var stored := rows[id].agentKey.value;
      PlanInWords(c, stored);
      var r := Peel(c, stored, 0);
      hide Peel, Under, InShape, Readable, PlanFor;
      if r.Plain? { PeeledIsUnder(c, stored, 0, r.plain, r.layers); }
      forall plain | Under(c, stored, plain, 1) ensures r == Plain(plain, 1) { PeeledIsUnder(c, stored, 0, plain, 1); }
    }
  }

  /** Nothing another session wrote is lost: the run can commit only where every row it rewrites still holds the key it
      read. */
  lemma NothingOverwritten(c: Cipher, rows: Table, filter: string, nonce: Id -> Nonce, now: Table)
    requires Lawful(c)
    ensures PendingUntouched(c, rows, filter, now) <==>
              forall id | HasKey(rows, filter, id) && Readable(c, rows[id].agentKey.value) && !InShape(c, rows[id].agentKey.value) ::
                id in now && now[id].agentKey == rows[id].agentKey
    ensures PendingUntouched(c, rows, filter, now) ==>
              forall id | id in now && Rewritten(c, rows, filter, nonce, now)[id] != now[id] ::
                id in rows && now[id].agentKey == rows[id].agentKey
  {
    forall id
      ensures Pending(c, rows, filter, id) <==>
                HasKey(rows, filter, id) && Readable(c, rows[id].agentKey.value) && !InShape(c, rows[id].agentKey.value)
    {
      RunConditions(c, rows, filter, id);
      if HasKey(rows, filter, id) { PlanInWords(c, rows[id].agentKey.value); }
      hide PlanFor, InShape, Readable;
    }
    hide Pending, HasKey, InShape, Readable, PlanOf;
    forall id | Pending(c, rows, filter, id) && PendingUntouched(c, rows, filter, now) ensures SameKey(rows, now, id) {}
  }
}
