# shift-track: a Dafny model of the shift-tracking core

shift-track is a small web app for recording work shifts. A user swaps in,
watches progress against a fixed 3h40m shift, swaps out, reviews past
shifts and looks up buses to catch afterwards. This project models the
logic behind three pages and proves properties of it:

- **Dashboard** (`dashboard.dfy`, with `local_slot.dfy` and `sync.dfy`).
  - The day's entry is mirrored in one device-storage slot (`LocalSlot`).
  - `Sync.Reconcile` decides between "create the remote record" and "patch its swap-out", and says what the entry becomes once the remote store answers.
  - `Dashboard.DashboardState` is a class holding the component state (swap-in, swap-out, entry id), the slot and the log of remote requests. Its methods are the start and stop handlers, the persist-then-sync effect, the mount-time restore and `syncEntryToFirestore`. `syncEntryToFirestore` updates an `Entry` object in place.
  - Pure functions cover progress, the time left, `formatDuration` and the best bus after the expected end of the shift.
- **History** (`history.dfy`).
  - The total worked time is computed by a loop (`ComputeTotal`) and proved equal to a fold (`TotalOf`).
  - Also modelled: the hour/minute duration text, optimistic deletion by id, and the select-all and row selection updates.
- **Bus timings** (`bus_timing.dfy`).
  - The `^\d{2}:\d{2}$` input check; the list sorted by time string, or the seven seeded defaults.
  - "Next bus" is the first time after now; "best bus" is the first time at or after now + 220 minutes, wrapping at midnight.
  - Adding and editing work on the user's collection, modelled as a map from document id to time.

Shared helpers: `wrappers.dfy` (Option) and `text.dfy` (digits, decimal text,
JavaScript's truncating `%`, and string order as code-point order, which equals
JavaScript's UTF-16 code-unit order on text such as HH:MM).

Modelling choices:
- Instants are integer milliseconds. A local time of day is `((t + offsetMs) / 60000) % 1440` for a fixed UTC offset.
- The remote store is an oracle passed as parameters: a create answers with the new id or fails, and a patch succeeds or fails. Every request issued is appended to `remoteLog`.
- JavaScript truthiness is kept:
  - an empty id counts as no id (`Sync.HasId`);
  - an empty user id means signed out;
  - an undefined `synced` or `swapOutSynced` reads as `false`.

Behaviour the model keeps from the code as written:
- Progress is clamped only from above (src/app/dashboard/page.tsx:99, `Math.min(1, …)`). With a typed start time later than now, progress is negative (`Dashboard.Progress`).
- The bus page's `endStr` is the HH:MM of now + 220 minutes, so it wraps past midnight (src/app/dashboard/bus-timing/page.tsx:97-100, `BusTiming.EndTextWraps`). A session started late in the evening therefore gets the day's first bus as its "best bus", not none (`BusTiming.LateStartRecommendsFirstBus`).
- The select-all box is checked when the number of selected ids equals the number of entries and there are some (src/app/dashboard/history/page.tsx:153-157, `History.AllSelected`).
- The persist effect clears the slot once swap-in and swap-out are both set, whatever the sync did, even when nothing reached the remote store (src/app/dashboard/page.tsx:175-177, `Dashboard.OfflineStopThenPersistClearsUnsyncedSlot`).

## Model

| member | source | states |
|---|---|---|
| LocalSlot.Encode | src/app/dashboard/page.tsx:105-107 | the text written to the slot is never empty, so a saved entry is never mistaken for a missing item |
| LocalSlot.Load | src/app/dashboard/page.tsx:108-116 | a missing or empty item loads as nothing; an entry is returned only when the stored text decodes to it |
| LocalSlot.DecodeEncode | src/app/dashboard/page.tsx:105-116 | decoding the saved text gives back exactly the saved entry |
| LocalSlot.LoadAfterSave | src/app/dashboard/page.tsx:105-116 | after saving e, loading returns e |
| LocalSlot.LoadCorrupt | src/app/dashboard/page.tsx:111-115 | any stored text that does not decode loads as nothing instead of failing |
| LocalSlot.LoadBrace | src/app/dashboard/page.tsx:111-115 | example: the text "{" loads as nothing |
| Sync.Reconcile | src/app/dashboard/page.tsx:121-147 | offline, signed out or already synced: nothing is sent or changed. A create is sent iff no id and a swap-in, so never for an entry with an id, and it carries swap-out only if known. A patch is sent iff id, swap-out and swap-out not yet synced. A failure changes nothing. A successful create sets only id and synced. A successful patch sets only swapOutSynced and synced |
| Sync.BranchesExclusive | src/app/dashboard/page.tsx:124-137 | the create and patch guards never hold together |
| Sync.ReconcileIdempotent | src/app/dashboard/page.tsx:122-145 | after a successful call a second call sends nothing and changes nothing; after a failed request the next call retries it: same kind of request, the identical patch for a patch, and on success the entry a successful first call would have reached |
| Sync.NeitherBranchLeavesEntry | src/app/dashboard/page.tsx:124-145 | an entry neither branch serves is left unchanged and nothing is sent |
| Sync.CreateCarriesPendingSwapOut | src/app/dashboard/page.tsx:124-135 | an entry stopped before its create succeeded is created with its swap-out and ends with `synced` set (`swapOutSynced` stays false) |
| Dashboard.Progress | src/app/dashboard/page.tsx:97-99 | progress is at most 1; it is 1 exactly when the 3h40m have elapsed; it is non-negative exactly when now is not before swap-in; below 1 it is elapsed / 13,200,000 |
| Dashboard.ProgressMonotone | src/app/dashboard/page.tsx:97-99 | for a fixed swap-in, progress never decreases as now grows |
| Dashboard.ProgressAfterOneHour | src/app/dashboard/page.tsx:97-99 | one hour into the shift progress is 3/11 |
| Dashboard.Remaining | src/app/dashboard/page.tsx:394-398 | time left is shown exactly while progress is below 1; it is positive and adds up with the elapsed time to the shift length |
| Dashboard.ClockParts | src/app/dashboard/page.tsx:234-237 | hours and minutes agree with the history page's; seconds lie in [-60, 60); for a non-negative duration the shown h:m:s is the duration rounded down to the second |
| Dashboard.FormatDuration | src/app/dashboard/page.tsx:234-239 | the text ends in "s" and contains an hours part exactly when the hours are non-zero |
| Dashboard.ExpectedEndBus | src/app/dashboard/page.tsx:304-313 | no recommendation unless a shift is active; otherwise the best bus for the local HH:MM of swap-in + 3h40m |
| Dashboard.DashboardAgreesWithBusPage | src/app/dashboard/page.tsx:311-313 | a shift started now gets the same recommendation as the bus page's "best bus after session" |
| Dashboard.StartEntry | src/app/dashboard/page.tsx:197-202 | the start entry has only the new swap-in, no id, both flags false, so a create is due |
| Dashboard.StopEntry | src/app/dashboard/page.tsx:221-228 | the stop entry keeps the stored id (else none) and the stored swap-in (else the in-memory one), sets swap-out, clears both flags; then a patch is due if it has an id and a create otherwise |
| Dashboard.EffectEntry | src/app/dashboard/page.tsx:162-174 | the effect's entry copies id, swap-in and swap-out from component state with both flags false |
| Dashboard.EffectEntryKeepingId | src/app/dashboard/page.tsx:162-168 | corrected effect entry: an id stored in the slot is kept, so no create is due for it |
| Dashboard.DashboardState.SaveLocalEntry | src/app/dashboard/page.tsx:105-107 | the slot is overwritten with the entry, and loading it gives the entry back |
| Dashboard.DashboardState.LoadLocalEntry | src/app/dashboard/page.tsx:108-116 | returns the stored entry; returns nothing for an empty slot |
| Dashboard.DashboardState.ClearLocalEntry | src/app/dashboard/page.tsx:117-119 | the slot is empty afterwards and loads as nothing |
| Dashboard.DashboardState.SyncEntryToFirestore | src/app/dashboard/page.tsx:121-147 | the entry object, the request log and the slot change exactly as `Sync.Reconcile` says; the slot is rewritten only after a success |
| Dashboard.DashboardState.SaveThenSync | src/app/dashboard/page.tsx:175-176 | after saving and then syncing, the slot holds the reconciled entry whether or not the remote call succeeded |
| Dashboard.DashboardState.RestoreFromSlot | src/app/dashboard/page.tsx:150-157 | a stored entry restores swap-in, swap-out and its id (an empty id becomes none); an empty or unreadable slot restores nothing |
| Dashboard.DashboardState.HandleStart | src/app/dashboard/page.tsx:189-214 | a fresh session (swap-out and id cleared) is saved at once. When signed in it is reconciled, and the slot ends with the reconciled entry |
| Dashboard.DashboardState.HandleStop | src/app/dashboard/page.tsx:216-232 | with no swap-in nothing changes. Otherwise swap-out is set, and the stop entry built from the stored slot is saved and then reconciled |
| Dashboard.DashboardState.PersistAndSync | src/app/dashboard/page.tsx:160-178 | signed out or not started: nothing. Otherwise the state is saved as an unsynced entry and reconciled. The slot is cleared once swap-out is set, whatever the sync did |
| Dashboard.DashboardState.PersistAndSyncKeepingId | src/app/dashboard/page.tsx:160-178 | corrected effect: same, and no create is sent when the slot already holds an entry with an id |
| Dashboard.StartThenPersistCreatesTwice | src/app/dashboard/page.tsx:160-178 | start then effect, online: two creates for the same swap-in |
| Dashboard.StartThenPersistKeepingIdCreatesOnce | src/app/dashboard/page.tsx:160-178 | with the corrected effect the same sequence sends one create, and the slot keeps the created id |
| Dashboard.StopOfSyncedEntry | src/app/dashboard/page.tsx:221-228 | the stop entry of a synced active entry with an id gets its swap-out patched and ends with both flags true |
| Dashboard.StopPatchesSyncedEntry | src/app/dashboard/page.tsx:216-232 | restoring a synced entry with record id r and stopping it sends exactly one patch of r and leaves it stored with both flags true |
| Dashboard.OfflineStopThenPersistClearsUnsyncedSlot | src/app/dashboard/page.tsx:175-177 | offline, the stop entry is kept pending in the slot, then the effect clears it although nothing was sent |
| History.HoursMinutes | src/app/dashboard/history/page.tsx:16-18 | minutes lie in [-60, 60); for a non-negative duration h·3,600,000 + m·60,000 ≤ ms < h·3,600,000 + (m+1)·60,000 |
| History.FormatDuration | src/app/dashboard/history/page.tsx:16-20 | the text ends in "m" (seconds dropped) and contains an hours part exactly when the hours are non-zero |
| History.ComputeTotal | src/app/dashboard/history/page.tsx:57-65 | the loop's sum is the total over the entries, each completed one contributing swap-out minus swap-in |
| History.TotalAppend | src/app/dashboard/history/page.tsx:57-64 | the total of a concatenation is the sum of the totals |
| History.TotalRemoveAt | src/app/dashboard/history/page.tsx:58-64 | removing one entry lowers the total by exactly that entry's contribution |
| History.TotalIgnoresOrder | src/app/dashboard/history/page.tsx:58-64 | any reordering of the entries has the same total |
| History.TotalIgnoresOpenEntry | src/app/dashboard/history/page.tsx:59-63 | inserting an entry without swap-in or swap-out anywhere leaves the total unchanged |
| History.TotalOfCompleted | src/app/dashboard/history/page.tsx:57-65 | with completed, non-negative shifts the total is non-negative and at least the last shift |
| History.Keep | src/app/dashboard/history/page.tsx:89 | filter: each kept value occurs as often as before, dropped values not at all, in the original order |
| History.IdList | src/app/dashboard/history/page.tsx:88 | a single id becomes a one-element list, a list is used as given: the ids to delete are exactly that id or the listed ones |
| History.Ids | src/app/dashboard/history/page.tsx:161 | the entry ids in list order |
| History.Loaded | src/app/dashboard/history/page.tsx:53-65 | a load shows the period's entries with their total and keeps the selection |
| History.HandleDelete | src/app/dashboard/history/page.tsx:87-90 | keeps exactly the entries whose id is not listed, in order, and empties the selection; the total is not touched |
| History.DeleteOneIsDeleteList | src/app/dashboard/history/page.tsx:88 | deleting one id is deleting a one-element list |
| History.HandleDeleteRecomputingTotal | src/app/dashboard/history/page.tsx:87-90 | corrected delete: the total equals the remaining entries' total and drops by exactly the deleted entries' total |
| History.KeepSplitsTotal | src/app/dashboard/history/page.tsx:57-65 | splitting entries by a test splits the total into the two parts' totals |
| History.DeleteLeavesTotalStale | src/app/dashboard/history/page.tsx:87-90 | deleting the only one-hour entry leaves the shown total at one hour |
| History.AllSelected | src/app/dashboard/history/page.tsx:153-157 | the select-all box is checked only when there are entries and some ids are selected (the counts agree) |
| History.AllSelectedCountsOnly | src/app/dashboard/history/page.tsx:153-157 | the box compares counts only: two entries with the first id selected twice show it checked while the second row is unselected |
| History.ToggleAll | src/app/dashboard/history/page.tsx:153-163 | checking selects all ids in order, unchecking selects none; the box then shows checked iff it was checked and there are entries |
| History.ToggleRow | src/app/dashboard/history/page.tsx:217-229 | checking appends the id; unchecking removes every occurrence and keeps the other ids, in order and in number |
| History.DeleteClearsSelectAll | src/app/dashboard/history/page.tsx:90 | after any delete the select-all box is unchecked |
| BusTiming.ClockText | src/app/dashboard/bus-timing/page.tsx:93 | HH:MM text of a minute of the day is well formed, in range and denotes that minute |
| BusTiming.MinuteOfDay | src/app/dashboard/bus-timing/page.tsx:92-93 | the local minute of the day lies in 0..1439 |
| BusTiming.ValidTime | src/app/dashboard/bus-timing/page.tsx:71 | `/^\d{2}:\d{2}$/`: exactly five characters, a ':' third and a digit everywhere else; the same check gates edits (line 83) |
| BusTiming.NowText | src/app/dashboard/bus-timing/page.tsx:92-93 | `nowStr` passes the HH:MM check, its hour is below 24 and its minutes below 60, and it denotes now's local minute of the day |
| BusTiming.EndText | src/app/dashboard/bus-timing/page.tsx:97-99 | `endStr` passes the HH:MM check, its hour is below 24 and its minutes below 60, and it denotes (now's local minute + 220) mod 1440 |
| BusTiming.EndTextWraps | src/app/dashboard/bus-timing/page.tsx:97-99 | the end minute is (now's minute + 220) mod 1440 |
| BusTiming.LexOrderIsClockOrder | src/app/dashboard/bus-timing/page.tsx:64 | for well-formed HH:MM with minutes below 60, string order is minute-of-day order |
| BusTiming.ValidTimeChecksShapeOnly | src/app/dashboard/bus-timing/page.tsx:71 | "99:99" passes the check; "9:15", a trailing space or a dash do not |
| BusTiming.Insert | src/app/dashboard/bus-timing/page.tsx:64 | inserting adds exactly one element |
| BusTiming.InsertKeepsTies | src/app/dashboard/bus-timing/page.tsx:64 | the inserted entry goes ahead of every entry with its time, and entries sharing a time keep their order |
| BusTiming.InsertSorted | src/app/dashboard/bus-timing/page.tsx:64 | inserting into a sorted list keeps it sorted |
| BusTiming.SortByTime | src/app/dashboard/bus-timing/page.tsx:64 | the result is sorted by time string, a permutation of the input, and stable: for every time, the entries with that time appear in snapshot order |
| BusTiming.SortKeepsEqualTimesInOrder | src/app/dashboard/bus-timing/page.tsx:64 | two documents with the same time are listed in snapshot order |
| BusTiming.DefaultList | src/app/dashboard/bus-timing/page.tsx:57 | seven entries, each with id equal to its time, in the listed order |
| BusTiming.DefaultsSorted | src/app/dashboard/bus-timing/page.tsx:15-23 | the default times are in non-decreasing order |
| BusTiming.DisplayedList | src/app/dashboard/bus-timing/page.tsx:48-65 | the shown list is always sorted; it is the defaults for an empty collection, else a permutation of the documents in which documents sharing a time keep their snapshot order |
| BusTiming.FindFirst | src/app/dashboard/bus-timing/page.tsx:94-100 | `find`: the returned index qualifies and no earlier one does; nothing is returned iff nothing qualifies |
| BusTiming.FirstIsLeast | src/app/dashboard/bus-timing/page.tsx:94-100 | on a sorted list the first qualifying time is the least qualifying time |
| BusTiming.NextBus | src/app/dashboard/bus-timing/page.tsx:94 | the next bus is listed and after now. On a sorted list no later-than-now time is earlier. It is absent iff no listed time is after now |
| BusTiming.BestBus | src/app/dashboard/bus-timing/page.tsx:100 | the best bus is listed and at or after endStr. On a sorted list it is the least such time. It is absent iff every time is before endStr (no next-day lookup) |
| BusTiming.BestBusIsEarliestByClock | src/app/dashboard/bus-timing/page.tsx:96-100 | on a sorted list of well-formed times, the best bus has the least minute of the day at or after the threshold's |
| BusTiming.BestBusScenario | src/app/dashboard/bus-timing/page.tsx:100 | defaults with threshold "18:15" give "18:20" |
| BusTiming.LateStartRecommendsFirstBus | src/app/dashboard/bus-timing/page.tsx:96-100 | at 22:00 endStr is "01:40" and the best bus is "17:15" |
| BusTiming.HandleAdd | src/app/dashboard/bus-timing/page.tsx:70-76 | a well-formed time is stored under its own text and the input cleared; a malformed one changes neither store nor input |
| BusTiming.AddTwiceIsAddOnce | src/app/dashboard/bus-timing/page.tsx:72-74 | adding the same time twice gives the store that adding it once gives, at most one document more |
| BusTiming.HandleEdit | src/app/dashboard/bus-timing/page.tsx:82-89 | a malformed value, or a missing document, changes nothing. Otherwise only that document's time changes and the form closes |
| BusTiming.SeededStore | src/app/dashboard/bus-timing/page.tsx:50-56 | seeding stores one document per distinct default time, each under its own text |
| BusTiming.SeedingListsMoreThanItStores | src/app/dashboard/bus-timing/page.tsx:48-57 | seeding stores six documents but lists seven, with "18:20" twice |

## Findings

| source | as written | input that shows it | evidently intended | confidence | as-written member | corrected member |
|---|---|---|---|---|---|---|
| src/app/dashboard/page.tsx:160-178 | the persist effect builds its entry from the `entryId` state, which no create updates; after a start it sends a second create for the same shift, and since the effect reruns on every render (the progress timer re-renders each second) an online active shift keeps sending creates | online and signed in: start at t, then the effect that the start's state change triggers | the effect reuses the record the start handler created (as the stop handler does, via the slot) | medium, not executed | Dashboard.StartThenPersistCreatesTwice | Dashboard.DashboardState.PersistAndSyncKeepingId |
| src/app/dashboard/history/page.tsx:87-90 | deleting entries does not recompute `total`, so the page keeps counting deleted shifts | load one completed one-hour entry, delete it: the total still reads 1h 0m | the total follows the entries still listed | medium, not executed | History.DeleteLeavesTotalStale | History.HandleDeleteRecomputingTotal |

## Left out

- Firebase setup and sign-in are foreign library I/O and are not part of this model.
- Remote reads are not modelled: the mount-time query for today's entry, the history query and the dashboard's default seeding. The history page gets the query result as a parameter of `History.Loaded`. The bus page gets the listener's snapshot as a parameter of `BusTiming.DisplayedList`.
- The history page's batch delete is not modelled remotely. `History.HandleDelete` models only its update of the page state.
- The entry create and patch are an oracle answer plus a request log.
- The bus page's writes are map updates on the user's collection: seeding (`setDoc`, `BusTiming.SeededStore`), adding (`setDoc`, `BusTiming.HandleAdd`) and editing (`updateDoc`, `BusTiming.HandleEdit`). These writes always succeed, except that an edit of a missing document fails.
- BusTiming.HandleAdd: does not model a rejected or still pending write. In the source, `setNewTime('')` runs only after the awaited `setDoc` (src/app/dashboard/bus-timing/page.tsx:75), so a failed add leaves the input uncleared.
- The bus page's delete handler is only a remote delete, so it is not modelled.
- React scheduling is not modelled. `PersistAndSync` runs when the caller invokes it. The source's effect also reruns on renders that change none of its inputs, because its dependency list includes a function recreated on each render. The progress timer re-renders every second (src/app/dashboard/page.tsx:95-100), so in the source an online active shift whose `entryId` is still empty sends a create on every render. The model shows only the first two (`Dashboard.StartThenPersistCreatesTwice`).
- Async interleavings are not modelled. Each remote call is atomic, and a handler's own sync completes before the effect that its state change triggers. In the source the effect's `clearLocalEntry` (src/app/dashboard/page.tsx:177) runs before its own un-awaited sync writes the slot back on success (lines 136 and 144), and the stop handler's sync also writes back after it. So after an online stop the slot in the source ends up refilled with the synced entry. `PersistAndSync`'s contract says it is empty.
- The slot's JSON format is not modelled. A length-prefixed text format with the same fields stands in for it. Text that `JSON.parse` accepts but that is not an entry (a bare number, say) is not modelled.
- JavaScript `Date` is not modelled. This covers time zones with daylight saving (a fixed offset is used), `toISOString` and `toLocaleTimeString`. The typed start time's parse is replaced by the `now` parameter of `HandleStart`, and the history period's start date is not modelled. `createdAt` (`Timestamp.now()`) is a parameter.
- Progress uses exact reals, not IEEE doubles.
- A storage write that throws (for example, a full quota) is not modelled.
- Rendering, the service worker, the landing page and the root layout are not modelled.
- BusTiming.SortByTime: models `localeCompare` as code-point order. This agrees with it on HH:MM strings but not on arbitrary text.
- History.HoursMinutes: the h/m sandwich bound is stated for non-negative durations only; for negative ones only the minute range is stated.
