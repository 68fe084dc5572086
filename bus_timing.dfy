/**
 * The bus-timings page: HH:MM validation of added and edited times, the
 * time-sorted list shown (or the default times seeded for a new user), and
 * the two recommendations — the next bus after now and the best bus at or
 * after the end of a 3h40m session. The dashboard's best-bus lookup uses the
 * same first-match rule.
 */
module BusTiming {
  import opened Wrappers
  import opened Text

  datatype BusTime = BusTime(id: string, time: string)

  /** Length of a session in minutes (3h 40m). */
  const SessionMinutes: int := 3 * 60 + 40

  const MinutesPerDay: int := 24 * 60

  /** The times seeded for a user whose collection is empty ("18:20" twice, as in the source). */
  const DefaultTimes: seq<string> := ["17:15", "17:30", "18:10", "18:20", "18:20", "19:15", "19:45"]

  // ----- validation and clock text -----

  /** `/^\d{2}:\d{2}$/`: two ASCII digits, a colon, two ASCII digits, nothing else. */
  predicate ValidTime(s: string): (b: bool)
    ensures b <==> |s| == 5 && forall k :: 0 <= k < |s| ==> if k == 2 then s[k] == ':' else IsDigit(s[k])
  {
    |s| == 5 && IsDigit(s[0]) && IsDigit(s[1]) && s[2] == ':' && IsDigit(s[3]) && IsDigit(s[4])
  }

  function HourField(s: string): nat
    requires ValidTime(s)
  {
    10 * DigitValue(s[0]) + DigitValue(s[1])
  }

  function MinuteField(s: string): nat
    requires ValidTime(s)
  {
    10 * DigitValue(s[3]) + DigitValue(s[4])
  }

  /** The minute of the day a valid time denotes (fields are not range-checked). */
  function MinuteOf(s: string): nat
    requires ValidTime(s)
  {
    60 * HourField(s) + MinuteField(s)
  }

  /** `Date.toTimeString().slice(0, 5)`: zero-padded HH:MM of a minute of the day. */
  function ClockText(m: nat): (s: string)
    requires m < MinutesPerDay
    ensures ValidTime(s) && HourField(s) < 24 && MinuteField(s) < 60 && MinuteOf(s) == m
  {
    var h, mm := m / 60, m % 60;
    [DigitChar(h / 10), DigitChar(h % 10), ':', DigitChar(mm / 10), DigitChar(mm % 10)]
  }

  /**
   * The local minute of the day of an instant (milliseconds), for a local
   * clock `offsetMs` milliseconds ahead of UTC. Seconds are dropped.
   */
  function MinuteOfDay(instant: int, offsetMs: int): (m: nat)
    ensures m < MinutesPerDay
  {
    ((instant + offsetMs) / 60000) % MinutesPerDay
  }

  /** `nowStr`: the current local time as HH:MM. */
  function NowText(now: int, offsetMs: int): (s: string)
    ensures ValidTime(s) && HourField(s) < 24 && MinuteField(s) < 60
    ensures MinuteOf(s) == MinuteOfDay(now, offsetMs)
  {
    ClockText(MinuteOfDay(now, offsetMs))
  }

  /** `endStr`: local HH:MM of now plus the session length. */
  function EndText(now: int, offsetMs: int): (s: string)
    ensures ValidTime(s) && HourField(s) < 24 && MinuteField(s) < 60
    ensures MinuteOf(s) == (MinuteOfDay(now, offsetMs) + SessionMinutes) % MinutesPerDay
  {
    EndTextWraps(now, offsetMs);
    ClockText(MinuteOfDay(now + SessionMinutes * 60000, offsetMs))
  }

  lemma ShiftMinutes(x: int, k: nat)
    ensures (x + k * 60000) / 60000 == x / 60000 + k
  {
    var q, r := x / 60000, x % 60000;
    assert x + k * 60000 == (q + k) * 60000 + r;
  }

  /**
   * `endStr` is the time of day 220 minutes after now, wrapping past midnight:
   * late in the evening the threshold becomes an early-morning time.
   */
  lemma EndTextWraps(now: int, offsetMs: int)
    ensures MinuteOfDay(now + SessionMinutes * 60000, offsetMs)
         == (MinuteOfDay(now, offsetMs) + SessionMinutes) % MinutesPerDay
  {
    var q := (now + offsetMs) / 60000;
    ShiftMinutes(now + offsetMs, SessionMinutes);
    assert now + SessionMinutes * 60000 + offsetMs == (now + offsetMs) + SessionMinutes * 60000;
    var d := q / MinutesPerDay;
    assert q + SessionMinutes == (q % MinutesPerDay + SessionMinutes) + d * MinutesPerDay;
    ModShift(q % MinutesPerDay + SessionMinutes, d);
  }

  lemma ModShift(a: int, d: int)
    ensures (a + d * MinutesPerDay) % MinutesPerDay == a % MinutesPerDay
  {
    var q, r := a / MinutesPerDay, a % MinutesPerDay;
    assert a + d * MinutesPerDay == (q + d) * MinutesPerDay + r;
  }

  // ----- string order versus clock order -----

  /** `a <= b` on JavaScript strings. */
  predicate LexLe(a: string, b: string) {
    !LexLt(b, a)
  }

  lemma LexLeTransitive(a: string, b: string, c: string)
    requires LexLe(a, b) && LexLe(b, c)
    ensures LexLe(a, c)
  {
    LexLtTotal(a, b);
    LexLtTotal(b, c);
    if LexLt(c, a) {
      if a != b {
        LexLtTransitive(c, a, b);
      }
    }
  }

  lemma LexLtLeTransitive(a: string, b: string, c: string)
    requires LexLt(a, b) && LexLe(b, c)
    ensures LexLt(a, c)
  {
    LexLtTotal(b, c);
    if b != c {
      LexLtTransitive(a, b, c);
    }
  }

  /** Comparing two five-character strings with a colon in the middle, position by position. */
  lemma LexLtFive(s: string, t: string)
    requires |s| == 5 && |t| == 5 && s[2] == ':' && t[2] == ':'
    ensures LexLt(s, t) <==>
      s[0] < t[0]
      || (s[0] == t[0] && s[1] < t[1])
      || (s[0] == t[0] && s[1] == t[1] && s[3] < t[3])
      || (s[0] == t[0] && s[1] == t[1] && s[3] == t[3] && s[4] < t[4])
  {
    var s1, t1 := s[1..], t[1..];
    var s2, t2 := s1[1..], t1[1..];
    var s3, t3 := s2[1..], t2[1..];
    var s4, t4 := s3[1..], t3[1..];
    var s5, t5 := s4[1..], t4[1..];
    assert s5 == [] && t5 == [];
    assert LexLt(s4, t4) <==> s4[0] < t4[0];
    assert LexLt(s3, t3) <==> s3[0] < t3[0] || (s3[0] == t3[0] && LexLt(s4, t4));
    assert LexLt(s2, t2) <==> LexLt(s3, t3);
    assert LexLt(s1, t1) <==> s1[0] < t1[0] || (s1[0] == t1[0] && LexLt(s2, t2));
  }

  /**
   * For zero-padded HH:MM strings whose minutes are below 60, JavaScript's
   * string order is the order of the minutes of the day they denote.
   */
  lemma LexOrderIsClockOrder(s: string, t: string)
    requires ValidTime(s) && ValidTime(t) && MinuteField(s) < 60 && MinuteField(t) < 60
    ensures LexLt(s, t) <==> MinuteOf(s) < MinuteOf(t)
  {
    LexLtFive(s, t);
    var a0, a1, a3, a4 := DigitValue(s[0]), DigitValue(s[1]), DigitValue(s[3]), DigitValue(s[4]);
    var b0, b1, b3, b4 := DigitValue(t[0]), DigitValue(t[1]), DigitValue(t[3]), DigitValue(t[4]);
    assert s[0] < t[0] <==> a0 < b0;
    assert s[1] < t[1] <==> a1 < b1;
    assert s[3] < t[3] <==> a3 < b3;
    assert s[4] < t[4] <==> a4 < b4;
    assert s[0] == t[0] <==> a0 == b0;
    assert s[1] == t[1] <==> a1 == b1;
    assert s[3] == t[3] <==> a3 == b3;
  }

  /** The regular expression checks the shape only: "99:99" is accepted, "9:15" is not. */
  lemma ValidTimeChecksShapeOnly()
    ensures ValidTime("99:99") && MinuteField("99:99") == 99
    ensures !ValidTime("9:15") && !ValidTime("09:15 ") && !ValidTime("09-15")
  {
  }

  // ----- the sorted list -----

  /** Non-decreasing by time string. */
  predicate Sorted(s: seq<BusTime>) {
    forall i, j :: 0 <= i < j < |s| ==> LexLe(s[i].time, s[j].time)
  }

  /** The entries of `s` whose time is `t`, in their order in `s`. */
  function WithTime(s: seq<BusTime>, t: string): seq<BusTime> {
    if s == [] then [] else (if s[0].time == t then [s[0]] else []) + WithTime(s[1..], t)
  }

  /** Inserts `x` before the first entry whose time is not earlier, so equal times keep their order. */
  function Insert(x: BusTime, s: seq<BusTime>): (r: seq<BusTime>)
    ensures multiset(r) == multiset(s) + multiset{x}
  {
    if s == [] then [x]
    else if LexLe(x.time, s[0].time) then [x] + s
    else
      assert s == [s[0]] + s[1..];
      [s[0]] + Insert(x, s[1..])
  }

  lemma {:induction false} InsertSorted(x: BusTime, s: seq<BusTime>)
    requires Sorted(s)
    ensures Sorted(Insert(x, s))
  {
    if s == [] {
    } else if LexLe(x.time, s[0].time) {
      var r := [x] + s;
      forall i, j | 0 <= i < j < |r| ensures LexLe(r[i].time, r[j].time) {
        if i == 0 && j > 1 {
          LexLeTransitive(x.time, s[0].time, s[j - 1].time);
        }
      }
    } else {
      InsertSorted(x, s[1..]);
      var tail := Insert(x, s[1..]);
      var r := [s[0]] + tail;
      LexLtAsymmetric(s[0].time, x.time);
      forall i, j | 0 <= i < j < |r| ensures LexLe(r[i].time, r[j].time) {
        if i == 0 {
          var y := r[j];
          assert y in multiset(tail);
          if y != x {
            assert y in multiset(s[1..]);
            var k :| 0 <= k < |s[1..]| && s[1..][k] == y;
            assert s[k + 1] == y;
          }
        }
      }
    }
  }

  lemma WithTimeCons(y: BusTime, rest: seq<BusTime>, t: string)
    ensures WithTime([y] + rest, t) == (if y.time == t then [y] else []) + WithTime(rest, t)
  {
    assert ([y] + rest)[1..] == rest;
  }

  /** Inserting `x` puts it ahead of every entry with the same time and leaves their order alone. */
  lemma {:induction false} InsertKeepsTies(x: BusTime, s: seq<BusTime>, t: string)
    ensures WithTime(Insert(x, s), t) == (if x.time == t then [x] else []) + WithTime(s, t)
  {
    if s == [] {
      WithTimeCons(x, [], t);
      assert [x] + [] == [x];
    } else if LexLe(x.time, s[0].time) {
      WithTimeCons(x, s, t);
    } else {
      var tail := Insert(x, s[1..]);
      assert Insert(x, s) == [s[0]] + tail;
      assert s == [s[0]] + s[1..];
      InsertKeepsTies(x, s[1..], t);
      LexLtIrreflexive(x.time);
      TieAfterHead(x, s[0], tail, s[1..], t);
    }
  }

  /** An entry with another time than `x` in front of both sides does not disturb `x`'s place among its ties. */
  lemma TieAfterHead(x: BusTime, y: BusTime, tail: seq<BusTime>, rest: seq<BusTime>, t: string)
    requires y.time != x.time
    requires WithTime(tail, t) == (if x.time == t then [x] else []) + WithTime(rest, t)
    ensures WithTime([y] + tail, t) == (if x.time == t then [x] else []) + WithTime([y] + rest, t)
  {
    WithTimeCons(y, tail, t);
    WithTimeCons(y, rest, t);
    var hx := if x.time == t then [x] else [];
    var hy := if y.time == t then [y] else [];
    assert hx == [] || hy == [];
    assert hy + (hx + WithTime(rest, t)) == hx + (hy + WithTime(rest, t));
  }

  /** The list shown: `data.sort((a, b) => a.time.localeCompare(b.time))`. */
  function SortByTime(s: seq<BusTime>): (r: seq<BusTime>)
    ensures Sorted(r) && multiset(r) == multiset(s)
    ensures forall t :: WithTime(r, t) == WithTime(s, t)
  {
    if s == [] then []
    else
      var rest := SortByTime(s[1..]);
      InsertSorted(s[0], rest);
      assert s == [s[0]] + s[1..];
      assert forall t :: WithTime(Insert(s[0], rest), t) == WithTime(s, t) by {
        forall t ensures WithTime(Insert(s[0], rest), t) == WithTime(s, t) {
          InsertKeepsTies(s[0], rest, t);
        }
      }
      Insert(s[0], rest)
  }

  /** Two documents with the same time are listed in snapshot order. */
  lemma SortKeepsEqualTimesInOrder(a: BusTime, b: BusTime)
    requires a.time == b.time
    ensures SortByTime([a, b]) == [a, b]
  {
    assert [a, b][1..] == [b];
    assert SortByTime([b]) == [b] by {
      assert [b][1..] == [];
    }
    LexLtIrreflexive(a.time);
  }

  function DefaultList(): (r: seq<BusTime>)
    ensures |r| == |DefaultTimes| == 7
    ensures forall i :: 0 <= i < |r| ==> r[i].id == r[i].time == DefaultTimes[i]
  {
    seq(|DefaultTimes|, i requires 0 <= i < |DefaultTimes| => BusTime(DefaultTimes[i], DefaultTimes[i]))
  }

  /**
   * The list the page shows for a snapshot of the user's collection: the
   * defaults (in their listed order) when it is empty, else the documents
   * sorted by time. Either way it is sorted.
   */
  function DisplayedList(snapshot: seq<BusTime>): (r: seq<BusTime>)
    ensures Sorted(r)
    ensures snapshot == [] ==> r == DefaultList()
    ensures snapshot != [] ==> multiset(r) == multiset(snapshot)
    ensures snapshot != [] ==> forall t :: WithTime(r, t) == WithTime(snapshot, t)
  {
    if snapshot == [] then
      var d := DefaultList();
      assert forall i :: 0 <= i < 7 ==> d[i].time == DefaultTimes[i];
      DefaultsSorted();
      d
    else SortByTime(snapshot)
  }

  lemma DefaultsSorted()
    ensures forall i, j :: 0 <= i < j < |DefaultTimes| ==> LexLe(DefaultTimes[i], DefaultTimes[j])
  {
    var d := DefaultTimes;
    forall i | 0 <= i < |d| - 1 ensures LexLe(d[i], d[i + 1]) {
      LexLtFive(d[i + 1], d[i]);
    }
    forall i, j | 0 <= i < j < |d| ensures LexLe(d[i], d[j]) {
      var k := i;
      while k < j
        invariant i <= k <= j
        invariant LexLe(d[i], d[k])
      {
        LexLeTransitive(d[i], d[k], d[k + 1]);
        k := k + 1;
      }
    }
  }

  // ----- first-match search -----

  /** Whether `time` passes the `find` test against `threshold` (`>` when strict, `>=` otherwise). */
  predicate Qualifies(time: string, threshold: string, strict: bool) {
    if strict then LexLt(threshold, time) else LexLe(threshold, time)
  }

  /** `Array.prototype.find`: the index of the first qualifying entry. */
  function FindFirst(list: seq<BusTime>, threshold: string, strict: bool): (r: Option<nat>)
    ensures r.Some? ==> r.value < |list| && Qualifies(list[r.value].time, threshold, strict)
    ensures r.Some? ==> forall j :: 0 <= j < r.value ==> !Qualifies(list[j].time, threshold, strict)
    ensures r.None? <==> forall j :: 0 <= j < |list| ==> !Qualifies(list[j].time, threshold, strict)
  {
    if list == [] then None
    else if Qualifies(list[0].time, threshold, strict) then Some(0)
    else
      match FindFirst(list[1..], threshold, strict)
      case None => None
      case Some(k) => Some(k + 1)
  }

  /** On a sorted list the first qualifying entry is the least qualifying one. */
  lemma FirstIsLeast(list: seq<BusTime>, threshold: string, strict: bool)
    ensures var r := FindFirst(list, threshold, strict);
      Sorted(list) && r.Some? ==>
        forall j :: 0 <= j < |list| && Qualifies(list[j].time, threshold, strict) ==> LexLe(list[r.value].time, list[j].time)
  {
    var r := FindFirst(list, threshold, strict);
    if Sorted(list) && r.Some? {
      forall j | 0 <= j < |list| && Qualifies(list[j].time, threshold, strict)
        ensures LexLe(list[r.value].time, list[j].time)
      {
        if j == r.value {
          LexLtIrreflexive(list[j].time);
        }
      }
    }
  }

  function Found(list: seq<BusTime>, r: Option<nat>): Option<BusTime>
    requires r.Some? ==> r.value < |list|
  {
    if r.Some? then Some(list[r.value]) else None
  }

  /** `nextBus`: the first listed time strictly after now, absent when there is none. */
  function NextBus(list: seq<BusTime>, nowText: string): (r: Option<BusTime>)
    ensures r.Some? ==> r.value in list && LexLt(nowText, r.value.time)
    ensures r.None? <==> forall b :: b in list ==> !LexLt(nowText, b.time)
    ensures Sorted(list) && r.Some? ==>
      forall b :: b in list && LexLt(nowText, b.time) ==> LexLe(r.value.time, b.time)
  {
    var k := FindFirst(list, nowText, true);
    FirstIsLeast(list, nowText, true);
    Found(list, k)
  }

  /** `bestBus`: the first listed time at or after `endStr`, absent when there is none (no next-day lookup). */
  function BestBus(list: seq<BusTime>, endText: string): (r: Option<BusTime>)
    ensures r.Some? ==> r.value in list && LexLe(endText, r.value.time)
    ensures r.None? <==> forall b :: b in list ==> LexLt(b.time, endText)
    ensures Sorted(list) && r.Some? ==>
      forall b :: b in list && LexLe(endText, b.time) ==> LexLe(r.value.time, b.time)
  {
    var k := FindFirst(list, endText, false);
    FirstIsLeast(list, endText, false);
    Found(list, k)
  }

  /**
   * On a sorted list of well-formed times, the best bus is the one whose
   * minute of the day is the least at or after the threshold's.
   */
  lemma BestBusIsEarliestByClock(list: seq<BusTime>, endText: string)
    requires Sorted(list) && ValidTime(endText) && MinuteField(endText) < 60
    requires forall b :: b in list ==> ValidTime(b.time) && MinuteField(b.time) < 60
    ensures var r := BestBus(list, endText);
      && (r.Some? ==> MinuteOf(endText) <= MinuteOf(r.value.time))
      && (r.Some? ==> forall b :: b in list && MinuteOf(endText) <= MinuteOf(b.time)
                        ==> MinuteOf(r.value.time) <= MinuteOf(b.time))
      && (r.None? <==> forall b :: b in list ==> MinuteOf(b.time) < MinuteOf(endText))
  {
    var r := BestBus(list, endText);
    forall b | b in list
      ensures LexLt(b.time, endText) <==> MinuteOf(b.time) < MinuteOf(endText)
    {
      LexOrderIsClockOrder(b.time, endText);
    }
    if r.Some? {
      forall b | b in list && MinuteOf(endText) <= MinuteOf(b.time)
        ensures MinuteOf(r.value.time) <= MinuteOf(b.time)
      {
        LexOrderIsClockOrder(b.time, r.value.time);
      }
    }
  }

  /** The worked scenario: defaults with threshold "18:15" recommend the first "18:20". */
  lemma BestBusScenario()
    ensures BestBus(DefaultList(), "18:15") == Some(BusTime("18:20", "18:20"))
  {
    var d := DefaultList();
    LexLtFive(d[0].time, "18:15");
    LexLtFive(d[1].time, "18:15");
    LexLtFive(d[2].time, "18:15");
    LexLtFive(d[3].time, "18:15");
    assert FindFirst(d[3..], "18:15", false) == Some(0);
    assert FindFirst(d[2..], "18:15", false) == Some(1);
    assert FindFirst(d[1..], "18:15", false) == Some(2);
    assert FindFirst(d, "18:15", false) == Some(3);
  }

  /**
   * Late in the evening the wrapped threshold is an early-morning time, so the
   * first listed bus is recommended: at 22:00 (UTC clock) with the default
   * list, the best bus is "17:15".
   */
  lemma LateStartRecommendsFirstBus()
    ensures EndText(22 * 3600000, 0) == "01:40"
    ensures BestBus(DefaultList(), EndText(22 * 3600000, 0)) == Some(BusTime("17:15", "17:15"))
  {
    assert MinuteOfDay(22 * 3600000 + SessionMinutes * 60000, 0) == 100;
    var d := DefaultList();
    LexLtFive(d[0].time, "01:40");
    assert FindFirst(d, "01:40", false) == Some(0);
  }

  // ----- the user's collection (document id to time) -----

  type Store = map<string, string>

  /**
   * `handleAdd`: a well-formed time is written under its own text as document
   * id and the input box is emptied; anything else is ignored.
   */
  function HandleAdd(store: Store, newTime: string): (r: (Store, string))
    ensures ValidTime(newTime) ==> r.0.Keys == store.Keys + {newTime} && r.0[newTime] == newTime && r.1 == ""
    ensures ValidTime(newTime) ==> forall k :: k in store && k != newTime ==> r.0[k] == store[k]
    ensures !ValidTime(newTime) ==> r == (store, newTime)
  {
    if ValidTime(newTime) then (store[newTime := newTime], "") else (store, newTime)
  }

  /** Adding the same time twice leaves one record, as adding it once does. */
  lemma AddTwiceIsAddOnce(store: Store, t: string)
    ensures HandleAdd(HandleAdd(store, t).0, t).0 == HandleAdd(store, t).0
    ensures |HandleAdd(store, t).0| <= |store| + 1
  {
    var s1 := HandleAdd(store, t).0;
    if ValidTime(t) {
      assert s1.Keys == store.Keys + {t};
    }
  }

  /** The edit form's state: which row is being edited and the text typed. */
  datatype EditForm = EditForm(editId: Option<string>, editValue: string)

  /**
   * `handleEdit(id)`: a malformed value is ignored; a well-formed one replaces
   * the time of the existing document `id` (its id is kept) and closes the form.
   * Updating a document that does not exist fails, and the form stays open.
   */
  function HandleEdit(store: Store, form: EditForm, id: string): (r: (Store, EditForm))
    ensures !ValidTime(form.editValue) || id !in store ==> r == (store, form)
    ensures ValidTime(form.editValue) && id in store ==>
      r.0.Keys == store.Keys && r.0[id] == form.editValue && r.1 == EditForm(None, "")
    ensures forall k :: k in store && k != id ==> r.0[k] == store[k]
  {
    if !ValidTime(form.editValue) || id !in store then (store, form)
    else (store[id := form.editValue], EditForm(None, ""))
  }

  /**
   * Seeding writes each default time under its own text, so the store gets six
   * documents while the list shown has seven entries, two with id "18:20".
   */
  function SeededStore(): (s: Store)
    ensures s.Keys == set t | t in DefaultTimes
    ensures forall k :: k in s ==> s[k] == k
  {
    map t | t in DefaultTimes :: t
  }

  lemma SeedingListsMoreThanItStores()
    ensures |SeededStore().Keys| == 6 && |DefaultList()| == 7
    ensures DefaultList()[3] == DefaultList()[4]
  {
    var keys := SeededStore().Keys;
    assert keys == {"17:15", "17:30", "18:10", "18:20", "19:15", "19:45"};
  }
}
