/**
 * The decision procedure of `syncEntryToFirestore`: given the local entry,
 * connectivity and the signed-in user's id, which remote operation (if any)
 * is issued, and what the entry becomes once the remote store has answered.
 * The remote store itself is an oracle: a create answers with the new
 * record's id or fails, a patch succeeds or fails.
 */
module Sync {
  import opened Wrappers
  import opened LocalSlot

  /** The two remote writes the reconciler can issue. */
  datatype Request =
    | Create(userId: string, swapIn: Instant, createdAt: Instant, swapOut: Option<Instant>)
    | PatchSwapOut(recordId: string, patchedSwapOut: Instant)

  /**
   * What one reconciliation did: the entry afterwards, the request sent
   * (if any), and whether the entry was written back to the local slot.
   */
  datatype Outcome = Outcome(entry: LocalEntry, request: Option<Request>, saved: bool)

  /** `entry.id` is truthy: present and not the empty string. */
  predicate HasId(e: LocalEntry) {
    e.id.Some? && e.id.value != ""
  }

  /** The create branch's guard (reached only for an unsynced entry). */
  predicate CreateDue(e: LocalEntry) {
    !e.synced && !HasId(e) && e.swapIn.Some?
  }

  /** The patch branch's guard (reached only when the create branch's guard fails). */
  predicate PatchDue(e: LocalEntry) {
    !e.synced && HasId(e) && e.swapOut.Some? && !e.swapOutSynced
  }

  function RequestsOf(r: Option<Request>): (log: seq<Request>)
    ensures |log| <= 1
  {
    if r.Some? then [r.value] else []
  }

  /**
   * One call of `syncEntryToFirestore(entry, userId)`. `createReply` is how the
   * remote store answers a create (the new record's id, or `None` when the
   * call fails); `patchOk` is how it answers a patch.
   */
  function Reconcile(e: LocalEntry, online: bool, userId: string, createdAt: Instant,
                     createReply: Option<string>, patchOk: bool): (o: Outcome)
    // offline, signed out or already synced: nothing happens
    ensures !online || userId == "" || e.synced ==> o == Outcome(e, None, false)
    // a create is issued exactly when its guard holds, and never for an entry with an id
    ensures (o.request.Some? && o.request.value.Create?) <==> online && userId != "" && CreateDue(e)
    // a patch is issued exactly when its guard holds
    ensures (o.request.Some? && o.request.value.PatchSwapOut?) <==> online && userId != "" && PatchDue(e)
    // the created record carries the user, the swap-in instant, and swap-out only when known
    ensures o.request.Some? && o.request.value.Create? ==>
      o.request.value.userId == userId && Some(o.request.value.swapIn) == e.swapIn
      && o.request.value.swapOut == e.swapOut
    // the patch targets the entry's record with its swap-out instant
    ensures o.request.Some? && o.request.value.PatchSwapOut? ==>
      e.id == Some(o.request.value.recordId) && e.swapOut == Some(o.request.value.patchedSwapOut)
    // the entry is saved exactly when the issued request succeeded
    ensures o.saved <==> o.request.Some? && (if o.request.value.Create? then createReply.Some? else patchOk)
    // a failed or skipped call changes nothing
    ensures !o.saved ==> o.entry == e
    // a successful create records the new id and marks the entry synced; nothing else moves
    ensures o.saved && o.request.value.Create? ==>
      o.entry == e.(id := createReply, synced := true)
    // a successful patch marks swap-out and the entry synced; nothing else moves
    ensures o.saved && o.request.value.PatchSwapOut? ==>
      o.entry == e.(swapOutSynced := true, synced := true)
  {
    if !online || userId == "" then Outcome(e, None, false)
    else if e.synced then Outcome(e, None, false)
    else if !HasId(e) && e.swapIn.Some? then
      var request := Create(userId, e.swapIn.value, createdAt, e.swapOut);
      if createReply.None? then Outcome(e, Some(request), false)
      else Outcome(e.(id := createReply, synced := true), Some(request), true)
    else if HasId(e) && e.swapOut.Some? && !e.swapOutSynced then
      var request := PatchSwapOut(e.id.value, e.swapOut.value);
      if !patchOk then Outcome(e, Some(request), false)
      else Outcome(e.(swapOutSynced := true, synced := true), Some(request), true)
    else Outcome(e, None, false)
  }

  /** The two branches' guards never hold together. */
  lemma BranchesExclusive(e: LocalEntry)
    ensures !(CreateDue(e) && PatchDue(e))
  {
  }

  /**
   * Idempotence and retry: after a call whose request succeeded, a second call
   * (whatever the remote would answer) issues nothing and changes nothing.
   * After a call whose request failed, the next call retries it: a request of
   * the same kind (a patch of the same record with the same swap-out), and if
   * that succeeds, the entry reached is the one a successful first call with
   * the same answer would have reached.
   */
  lemma ReconcileIdempotent(e: LocalEntry, online: bool, userId: string, createdAt: Instant,
                            createReply: Option<string>, patchOk: bool,
                            createdAt2: Instant, createReply2: Option<string>, patchOk2: bool)
    ensures var o := Reconcile(e, online, userId, createdAt, createReply, patchOk);
      o.saved ==> Reconcile(o.entry, online, userId, createdAt2, createReply2, patchOk2) == Outcome(o.entry, None, false)
    ensures var o := Reconcile(e, online, userId, createdAt, createReply, patchOk);
      var o2 := Reconcile(o.entry, online, userId, createdAt2, createReply2, patchOk2);
      !o.saved && o.request.Some? ==>
        && o2.request.Some?
        && (o2.request.value.Create? <==> o.request.value.Create?)
        && (o.request.value.PatchSwapOut? ==> o2.request == o.request)
        && (o2.saved ==> o2.entry == Reconcile(e, online, userId, createdAt, createReply2, patchOk2).entry)
  {
  }

  /**
   * An unsynced entry that neither branch serves (no id and no swap-in, or an
   * id but no pending swap-out) is left as it is and nothing is sent.
   */
  lemma NeitherBranchLeavesEntry(e: LocalEntry, online: bool, userId: string, createdAt: Instant,
                                 createReply: Option<string>, patchOk: bool)
    requires !CreateDue(e) && !PatchDue(e)
    ensures Reconcile(e, online, userId, createdAt, createReply, patchOk) == Outcome(e, None, false)
  {
  }

  /**
   * Self-healing: an entry that was stopped before its create succeeded is
   * created in one go, swap-out included, and ends fully synced only in `synced`
   * (its `swapOutSynced` flag keeps its old value, false).
   */
  lemma CreateCarriesPendingSwapOut(swapIn: Instant, swapOut: Instant, userId: string,
                                    createdAt: Instant, newId: string)
    requires userId != ""
    ensures var e := LocalEntry(None, Some(swapIn), Some(swapOut), false, false);
      var o := Reconcile(e, true, userId, createdAt, Some(newId), false);
      o.request == Some(Create(userId, swapIn, createdAt, Some(swapOut)))
      && o.entry == LocalEntry(Some(newId), Some(swapIn), Some(swapOut), true, false)
  {
  }
}
