/**
 * The dashboard: the shift session (swap in, swap out), its mirror in the
 * device-storage slot, the reconciliation with the remote entry store, the
 * progress against the fixed 3h40m shift, and the best bus after the
 * expected end of the shift.
 */
module Dashboard {
  import opened Wrappers
  import opened Text
  import opened LocalSlot
  import opened Sync
  import History
  import BusTiming

  /** WORK_DURATION_MS: 3 hours 40 minutes. */
  const WorkDurationMs: int := 3 * 60 * 60 * 1000 + 40 * 60 * 1000

  // ----- progress and durations -----

  /** `Math.min(1, elapsed / WORK_DURATION_MS)` with `elapsed = now - swapIn`. */
  function Progress(swapIn: Instant, now: Instant): (p: real)
    ensures p <= 1.0
    ensures p == 1.0 <==> now - swapIn >= WorkDurationMs
    ensures 0.0 <= p <==> swapIn <= now
    ensures p < 1.0 ==> p * WorkDurationMs as real == (now - swapIn) as real
  {
    var ratio := (now - swapIn) as real / WorkDurationMs as real;
    if ratio < 1.0 then ratio else 1.0
  }

  /** For a fixed swap-in, progress never goes down as time passes. */
  lemma ProgressMonotone(swapIn: Instant, now1: Instant, now2: Instant)
    requires now1 <= now2
    ensures Progress(swapIn, now1) <= Progress(swapIn, now2)
  {
    var w := WorkDurationMs as real;
    var a, b := (now1 - swapIn) as real, (now2 - swapIn) as real;
    assert a / w <= b / w by {
      assert a / w * w == a && b / w * w == b;
    }
  }

  /** Swap in at 14:00, now 15:00: one hour of the 3h40m, i.e. 3/11. */
  lemma ProgressAfterOneHour()
    ensures Progress(14 * 3600000, 15 * 3600000) == 3.0 / 11.0
  {
  }

  /** The "time left" shown under the bar: present exactly while progress is below 1. */
  function Remaining(swapIn: Instant, now: Instant): (r: Option<int>)
    ensures r.Some? <==> Progress(swapIn, now) < 1.0
    ensures r.Some? ==> 0 < r.value && r.value + (now - swapIn) == WorkDurationMs
  {
    var elapsed := now - swapIn;
    if elapsed < WorkDurationMs then Some(WorkDurationMs - elapsed) else None
  }

  /** Hours, minutes and seconds the dashboard's `formatDuration` shows. */
  function ClockParts(ms: int): (p: (int, int, int))
    ensures (p.0, p.1) == History.HoursMinutes(ms)
    ensures -60 <= p.2 < 60
    ensures ms >= 0 ==>
      (0 <= p.2 && p.0 * 3600000 + p.1 * 60000 + p.2 * 1000 <= ms < p.0 * 3600000 + p.1 * 60000 + (p.2 + 1) * 1000)
  {
    var (h, m) := History.HoursMinutes(ms);
    var s := JsRem(ms, 60000) / 1000;
    SplitMs(ms);
    (h, m, s)
  }

  /** A non-negative duration is whole hours, whole minutes, whole seconds and leftover milliseconds. */
  lemma SplitMs(ms: int)
    ensures ms >= 0 ==>
      ms == (ms / 3600000) * 3600000 + ((ms % 3600000) / 60000) * 60000 + ((ms % 60000) / 1000) * 1000 + ms % 1000
  {
    if ms >= 0 {
      var q, r := ms / 3600000, ms % 3600000;
      var m, r2 := r / 60000, r % 60000;
      assert ms == (q * 60 + m) * 60000 + r2;
      assert r2 == ms % 60000;
      var sec, u := r2 / 1000, r2 % 1000;
      assert ms == ((q * 60 + m) * 60 + sec) * 1000 + u;
      assert u == ms % 1000;
    }
  }

  /** `formatDuration(ms)`: "<h>h <m>m <s>s", the hours part omitted when zero. */
  function FormatDuration(ms: int): (t: string)
    ensures |t| >= 2 && t[|t| - 1] == 's'
    ensures (ClockParts(ms).0 == 0) <==> 'h' !in t
  {
    var (h, m, s) := ClockParts(ms);
    var text := (if h != 0 then IntToString(h) + "h " else "") + IntToString(m) + "m " + IntToString(s) + "s";
    assert |text| >= 2 && (h == 0 <==> 'h' !in text) && text[|text| - 1] == 's' by {
      History.NoHourMark(IntToString(m));
      History.NoHourMark(IntToString(s));
      if h != 0 {
        History.NoHourMark(IntToString(h));
        assert text[|IntToString(h)|] == 'h';
      } else {
        assert text == IntToString(m) + "m " + IntToString(s) + "s";
      }
    }
    text
  }

  // ----- best bus after the shift -----

  /**
   * The dashboard's `bestBus`: while a shift is active, the first listed time
   * at or after the local HH:MM of swap-in plus the shift length.
   */
  function ExpectedEndBus(busTimes: seq<BusTiming.BusTime>, swapIn: Option<Instant>,
                          swapOut: Option<Instant>, offsetMs: int): (r: Option<BusTiming.BusTime>)
    ensures swapIn.None? || swapOut.Some? ==> r.None?
    ensures swapIn.Some? && swapOut.None? ==>
      r == BusTiming.BestBus(busTimes, BusTiming.ClockText(BusTiming.MinuteOfDay(swapIn.value + WorkDurationMs, offsetMs)))
  {
    if swapIn.Some? && swapOut.None? then
      BusTiming.BestBus(busTimes, BusTiming.ClockText(BusTiming.MinuteOfDay(swapIn.value + WorkDurationMs, offsetMs)))
    else None
  }

  /** A shift started now gets the same recommendation as the bus page's "best bus after session". */
  lemma DashboardAgreesWithBusPage(busTimes: seq<BusTiming.BusTime>, now: Instant, offsetMs: int)
    ensures ExpectedEndBus(busTimes, Some(now), None, offsetMs) == BusTiming.BestBus(busTimes, BusTiming.EndText(now, offsetMs))
  {
    assert BusTiming.SessionMinutes * 60000 == WorkDurationMs;
  }

  // ----- the entries the handlers build -----

  /** The entry the start handler saves and syncs. */
  function StartEntry(now: Instant): (e: LocalEntry)
    ensures e.swapIn == Some(now) && e.swapOut.None? && e.id.None?
    ensures !e.synced && !e.swapOutSynced && !HasId(e) && CreateDue(e)
  {
    LocalEntry(None, Some(now), None, false, false)
  }

  /**
   * The entry the stop handler saves and syncs: the stored id (else none), the
   * stored swap-in (else the one in memory), the new swap-out, both flags false.
   */
  function StopEntry(local: Option<LocalEntry>, swapIn: Instant, now: Instant): (e: LocalEntry)
    ensures e.swapOut == Some(now) && !e.synced && !e.swapOutSynced
    ensures local.Some? && HasId(local.value) ==> e.id == local.value.id
    ensures !(local.Some? && HasId(local.value)) ==> e.id.None?
    ensures local.Some? && local.value.swapIn.Some? ==> e.swapIn == local.value.swapIn
    ensures !(local.Some? && local.value.swapIn.Some?) ==> e.swapIn == Some(swapIn)
    ensures HasId(e) ==> PatchDue(e)
    ensures !HasId(e) ==> CreateDue(e)
  {
    var id := if local.Some? && HasId(local.value) then local.value.id else None;
    var start := if local.Some? && local.value.swapIn.Some? then local.value.swapIn else Some(swapIn);
    LocalEntry(id, start, Some(now), false, false)
  }

  /** The entry the persist effect builds from the component state. */
  function EffectEntry(entryId: Option<string>, swapIn: Option<Instant>, swapOut: Option<Instant>): (e: LocalEntry)
    ensures e.id == entryId && e.swapIn == swapIn && e.swapOut == swapOut && !e.synced && !e.swapOutSynced
  {
    LocalEntry(entryId, swapIn, swapOut, false, false)
  }

  /**
   * The entry the corrected persist effect builds: as `EffectEntry`, but an
   * id missing from the component state is taken from the slot, as the stop
   * handler already does.
   */
  function EffectEntryKeepingId(entryId: Option<string>, local: Option<LocalEntry>,
                                swapIn: Option<Instant>, swapOut: Option<Instant>): (e: LocalEntry)
    ensures !e.synced && !e.swapOutSynced && e.swapIn == swapIn && e.swapOut == swapOut
    ensures entryId.Some? && entryId.value != "" ==> e.id == entryId
    ensures local.Some? && HasId(local.value) ==> HasId(e) && !CreateDue(e)
  {
    var id := if entryId.Some? && entryId.value != "" then entryId
              else if local.Some? && HasId(local.value) then local.value.id
              else None;
    LocalEntry(id, swapIn, swapOut, false, false)
  }

  /** The mutable record `syncEntryToFirestore` updates in place. */
  class Entry {
    var id: Option<string>
    var swapIn: Option<Instant>
    var swapOut: Option<Instant>
    var synced: bool
    var swapOutSynced: bool

    constructor (v: LocalEntry)
      ensures Value() == v
    {
      id, swapIn, swapOut := v.id, v.swapIn, v.swapOut;
      synced, swapOutSynced := v.synced, v.swapOutSynced;
    }

    function Value(): LocalEntry
      reads this
    {
      LocalEntry(id, swapIn, swapOut, synced, swapOutSynced)
    }
  }

  /**
   * The dashboard component's state that the shift logic touches, with the
   * device-storage slot and the log of requests sent to the remote store.
   */
  class DashboardState {
    /** The signed-in user's id, or none when signed out. */
    var user: Option<string>
    /** `navigator.onLine`. */
    var online: bool
    var swapIn: Option<Instant>
    var swapOut: Option<Instant>
    var entryId: Option<string>
    /** The raw `shift-track-entry` item of device storage. */
    var slot: Option<string>
    /** Every create and patch issued, in order, whether or not it succeeded. */
    var remoteLog: seq<Request>

    constructor (user: Option<string>, online: bool, slot: Option<string>)
      ensures this.user == user && this.online == online && this.slot == slot
      ensures swapIn.None? && swapOut.None? && entryId.None? && remoteLog == []
    {
      this.user, this.online, this.slot := user, online, slot;
      swapIn, swapOut, entryId := None, None, None;
      remoteLog := [];
    }

    /** `saveLocalEntry`: overwrite the slot. */
    method SaveLocalEntry(e: LocalEntry)
      modifies this`slot
      ensures slot == Some(Encode(e)) && Load(slot) == Some(e)
    {
      slot := Some(Encode(e));
      LoadAfterSave(e);
    }

    /** `loadLocalEntry`: the stored entry, or none for a missing, empty or unreadable slot. */
    method LoadLocalEntry() returns (r: Option<LocalEntry>)
      ensures r == Load(slot)
      ensures slot.None? ==> r.None?
      ensures forall e :: slot == Some(Encode(e)) ==> r == Some(e)
    {
      if slot.None? || slot.value == [] {
        r := None;
      } else {
        r := Decode(slot.value);
      }
      forall e | slot == Some(Encode(e)) ensures r == Some(e) {
        LoadAfterSave(e);
      }
    }

    /** `clearLocalEntry`: empty the slot. */
    method ClearLocalEntry()
      modifies this`slot
      ensures slot.None? && Load(slot).None?
    {
      slot := None;
    }

    /**
     * `syncEntryToFirestore(entry, userId)`. The remote store's answers are
     * parameters: `createReply` is the new record's id, or none when the create
     * fails; `patchOk` says whether a patch succeeds. A failed call throws
     * before any assignment, so the entry and the slot stay as they were.
     */
    method SyncEntryToFirestore(entry: Entry, userId: string, createdAt: Instant,
                                createReply: Option<string>, patchOk: bool)
      modifies entry, this`slot, this`remoteLog
      ensures var o := Reconcile(old(entry.Value()), online, userId, createdAt, createReply, patchOk);
        && entry.Value() == o.entry
        && remoteLog == old(remoteLog) + RequestsOf(o.request)
        && slot == (if o.saved then Some(Encode(o.entry)) else old(slot))
    {
      if !online || userId == "" {
        return;
      }
      if !entry.synced {
        if !(entry.id.Some? && entry.id.value != "") && entry.swapIn.Some? {
          remoteLog := remoteLog + [Create(userId, entry.swapIn.value, createdAt, entry.swapOut)];
          if createReply.None? {
            return;
          }
          entry.id := createReply;
          entry.synced := true;
          SaveLocalEntry(entry.Value());
        } else if entry.id.Some? && entry.id.value != "" && entry.swapOut.Some? && !entry.swapOutSynced {
          remoteLog := remoteLog + [PatchSwapOut(entry.id.value, entry.swapOut.value)];
          if !patchOk {
            return;
          }
          entry.swapOutSynced := true;
          entry.synced := true;
          SaveLocalEntry(entry.Value());
        }
      }
    }

    /**
     * Save `e` to the slot, then (when signed in) reconcile a record holding
     * `e`. Whether or not the remote call succeeds, the slot ends up holding
     * the reconciled entry.
     */
    method SaveThenSync(e: LocalEntry, createdAt: Instant, createReply: Option<string>, patchOk: bool)
      modifies this`slot, this`remoteLog
      ensures user.Some? ==>
        var o := Reconcile(e, online, user.value, createdAt, createReply, patchOk);
        slot == Some(Encode(o.entry)) && remoteLog == old(remoteLog) + RequestsOf(o.request)
      ensures user.None? ==> slot == Some(Encode(e)) && remoteLog == old(remoteLog)
    {
      SaveLocalEntry(e);
      if user.Some? {
        var entry := new Entry(e);
        SyncEntryToFirestore(entry, user.value, createdAt, createReply, patchOk);
      }
    }

    /** The mount effect: restore the session from the slot when it holds an entry. */
    method RestoreFromSlot()
      modifies this`swapIn, this`swapOut, this`entryId
      ensures Load(slot).None? ==> swapIn == old(swapIn) && swapOut == old(swapOut) && entryId == old(entryId)
      ensures Load(slot).Some? ==>
        swapIn == Load(slot).value.swapIn && swapOut == Load(slot).value.swapOut
        && entryId == (if HasId(Load(slot).value) then Load(slot).value.id else None)
    {
      var local := LoadLocalEntry();
      if local.Some? {
        swapIn := local.value.swapIn;
        swapOut := local.value.swapOut;
        entryId := if HasId(local.value) then local.value.id else None;
      }
    }

    /**
     * `handleStart`, once the start instant is known (`now`: the current
     * instant, or the typed start time on today's date): a fresh session, saved
     * to the slot at once and then synced in the background.
     */
    method HandleStart(now: Instant, createdAt: Instant, createReply: Option<string>)
      modifies this`swapIn, this`swapOut, this`entryId, this`slot, this`remoteLog
      ensures swapIn == Some(now) && swapOut.None? && entryId.None?
      ensures user.Some? ==>
        var o := Reconcile(StartEntry(now), online, user.value, createdAt, createReply, false);
        slot == Some(Encode(o.entry)) && remoteLog == old(remoteLog) + RequestsOf(o.request)
      ensures user.None? ==> slot == Some(Encode(StartEntry(now))) && remoteLog == old(remoteLog)
    {
      swapIn, swapOut, entryId := Some(now), None, None;
      SaveThenSync(StartEntry(now), createdAt, createReply, false);
    }

    /**
     * `handleStop` at instant `now`: without an active swap-in nothing happens;
     * otherwise the swap-out is set and the stop entry is saved, then synced.
     */
    method HandleStop(now: Instant, createdAt: Instant, createReply: Option<string>, patchOk: bool)
      modifies this`swapOut, this`slot, this`remoteLog
      ensures old(swapIn).None? ==> swapOut == old(swapOut) && slot == old(slot) && remoteLog == old(remoteLog)
      ensures old(swapIn).Some? ==> swapOut == Some(now)
      ensures old(swapIn).Some? && user.Some? ==>
        var o := Reconcile(StopEntry(Load(old(slot)), swapIn.value, now), online, user.value, createdAt, createReply, patchOk);
        slot == Some(Encode(o.entry)) && remoteLog == old(remoteLog) + RequestsOf(o.request)
      ensures old(swapIn).Some? && user.None? ==>
        slot == Some(Encode(StopEntry(Load(old(slot)), swapIn.value, now))) && remoteLog == old(remoteLog)
    {
      if swapIn.None? {
        return;
      }
      swapOut := Some(now);
      var local := LoadLocalEntry();
      SaveThenSync(StopEntry(local, swapIn.value, now), createdAt, createReply, patchOk);
    }

    /**
     * The effect run after a change of swap-in, swap-out or entry id: when
     * signed in and a shift has started, save the state as an unsynced entry
     * and sync it; once the shift is complete, clear the slot whatever the
     * sync did.
     */
    method PersistAndSync(createdAt: Instant, createReply: Option<string>, patchOk: bool)
      modifies this`slot, this`remoteLog
      ensures user.None? || swapIn.None? ==> slot == old(slot) && remoteLog == old(remoteLog)
      ensures user.Some? && swapIn.Some? ==>
        var o := Reconcile(EffectEntry(entryId, swapIn, swapOut), online, user.value, createdAt, createReply, patchOk);
        remoteLog == old(remoteLog) + RequestsOf(o.request)
        && slot == (if swapOut.Some? then None else Some(Encode(o.entry)))
    {
      if user.None? {
        return;
      }
      if swapIn.Some? {
        SaveThenSync(EffectEntry(entryId, swapIn, swapOut), createdAt, createReply, patchOk);
        if swapOut.Some? {
          ClearLocalEntry();
        }
      }
    }

    /**
     * The corrected effect: as `PersistAndSync`, except that the entry takes its
     * id from the slot when the component state has none. An entry the start
     * handler already created is then never created again.
     */
    method PersistAndSyncKeepingId(createdAt: Instant, createReply: Option<string>, patchOk: bool)
      modifies this`slot, this`remoteLog
      ensures user.None? || swapIn.None? ==> slot == old(slot) && remoteLog == old(remoteLog)
      ensures user.Some? && swapIn.Some? ==>
        var o := Reconcile(EffectEntryKeepingId(entryId, Load(old(slot)), swapIn, swapOut), online, user.value, createdAt, createReply, patchOk);
        remoteLog == old(remoteLog) + RequestsOf(o.request)
        && slot == (if swapOut.Some? then None else Some(Encode(o.entry)))
      ensures Load(old(slot)).Some? && HasId(Load(old(slot)).value) ==>
        forall k :: |old(remoteLog)| <= k < |remoteLog| ==> !remoteLog[k].Create?
    {
      if user.None? {
        return;
      }
      if swapIn.Some? {
        var local := LoadLocalEntry();
        SaveThenSync(EffectEntryKeepingId(entryId, local, swapIn, swapOut), createdAt, createReply, patchOk);
        if swapOut.Some? {
          ClearLocalEntry();
        }
      }
    }
  }

  // ----- scenarios -----

  /**
   * Starting a shift online, then running the persist effect that the state
   * change triggers, issues two creates for the same swap-in: the start
   * handler's create is never reflected in `entryId`.
   */
  method StartThenPersistCreatesTwice(uid: string, now: Instant, createdAt: Instant, idA: string, idB: string)
    returns (log: seq<Request>)
    requires uid != ""
    ensures log == [Create(uid, now, createdAt, None), Create(uid, now, createdAt, None)]
  {
    var d := new DashboardState(Some(uid), true, None);
    d.HandleStart(now, createdAt, Some(idA));
    d.PersistAndSync(createdAt, Some(idB), false);
    log := d.remoteLog;
  }

  /** With the corrected effect the same sequence issues a single create. */
  method StartThenPersistKeepingIdCreatesOnce(uid: string, now: Instant, createdAt: Instant, idA: string, idB: string)
    returns (log: seq<Request>, stored: Option<LocalEntry>)
    requires uid != "" && idA != ""
    ensures log == [Create(uid, now, createdAt, None)]
    ensures stored == Some(LocalEntry(Some(idA), Some(now), None, false, false))
  {
    var d := new DashboardState(Some(uid), true, None);
    var created := LocalEntry(Some(idA), Some(now), None, true, false);
    assert Reconcile(StartEntry(now), true, uid, createdAt, Some(idA), false)
        == Outcome(created, Some(Create(uid, now, createdAt, None)), true);
    d.HandleStart(now, createdAt, Some(idA));
    assert d.slot == Some(Encode(created)) && d.remoteLog == [Create(uid, now, createdAt, None)];
    LoadAfterSave(created);
    var kept := LocalEntry(Some(idA), Some(now), None, false, false);
    assert EffectEntryKeepingId(None, Some(created), Some(now), None) == kept;
    assert Reconcile(kept, true, uid, createdAt, Some(idB), false) == Outcome(kept, None, false);
    d.PersistAndSyncKeepingId(createdAt, Some(idB), false);
    assert d.slot == Some(Encode(kept));
    LoadAfterSave(kept);
    log := d.remoteLog;
    stored := d.LoadLocalEntry();
  }

  /** Stopping a synced active entry with an id patches its swap-out and marks it fully synced. */
  lemma StopOfSyncedEntry(synced: LocalEntry, uid: string, t1: Instant, createdAt: Instant)
    requires HasId(synced) && synced.swapIn.Some? && synced.swapOut.None?
    requires uid != ""
    ensures var done := LocalEntry(synced.id, synced.swapIn, Some(t1), true, true);
      Reconcile(StopEntry(Some(synced), synced.swapIn.value, t1), true, uid, createdAt, None, true)
        == Outcome(done, Some(PatchSwapOut(synced.id.value, t1)), true)
  {
    var stopped := LocalEntry(synced.id, synced.swapIn, Some(t1), false, false);
    assert StopEntry(Some(synced), synced.swapIn.value, t1) == stopped;
  }

  /**
   * A synced active entry with a record id is stopped: the slot first holds
   * the stop entry with both flags false, then, once the patch succeeds, with
   * both flags true; the only request is the patch of that record.
   */
  method StopPatchesSyncedEntry(uid: string, id: string, t0: Instant, t1: Instant, createdAt: Instant)
    returns (log: seq<Request>, stored: Option<LocalEntry>)
    requires uid != "" && id != ""
    ensures log == [PatchSwapOut(id, t1)]
    ensures stored == Some(LocalEntry(Some(id), Some(t0), Some(t1), true, true))
  {
    var synced := LocalEntry(Some(id), Some(t0), None, true, false);
    var done := LocalEntry(Some(id), Some(t0), Some(t1), true, true);
    var d := new DashboardState(Some(uid), true, Some(Encode(synced)));
    LoadAfterSave(synced);
    d.RestoreFromSlot();
    assert d.swapIn == Some(t0) && d.slot == Some(Encode(synced));
    StopOfSyncedEntry(synced, uid, t1, createdAt);
    d.HandleStop(t1, createdAt, None, true);
    assert d.slot == Some(Encode(done));
    LoadAfterSave(done);
    log := d.remoteLog;
    stored := d.LoadLocalEntry();
  }

  /**
   * Offline, stopping a shift keeps the pending stop entry in the slot and
   * sends nothing; the next persist run, still offline, clears the slot
   * although nothing reached the remote store.
   */
  method OfflineStopThenPersistClearsUnsyncedSlot(uid: string, t0: Instant, t1: Instant, createdAt: Instant)
    returns (afterStop: Option<LocalEntry>, afterPersist: Option<LocalEntry>, log: seq<Request>)
    requires uid != ""
    ensures afterStop == Some(LocalEntry(None, Some(t0), Some(t1), false, false))
    ensures afterPersist.None? && log == []
  {
    var d := new DashboardState(Some(uid), false, None);
    d.HandleStart(t0, createdAt, None);
    assert d.slot == Some(Encode(StartEntry(t0)));
    LoadAfterSave(StartEntry(t0));
    var stopped := LocalEntry(None, Some(t0), Some(t1), false, false);
    assert StopEntry(Some(StartEntry(t0)), t0, t1) == stopped;
    d.HandleStop(t1, createdAt, None, false);
    assert d.slot == Some(Encode(stopped));
    LoadAfterSave(stopped);
    afterStop := d.LoadLocalEntry();
    d.PersistAndSync(createdAt, None, false);
    afterPersist := d.LoadLocalEntry();
    log := d.remoteLog;
  }
}
