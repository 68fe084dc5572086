/**
 * The work-history page: the total worked time over the loaded entries,
 * hour/minute duration text, optimistic deletion and the row selection.
 */
module History {
  import opened Wrappers
  import opened Text

  datatype HistoryEntry = HistoryEntry(id: string, swapIn: Option<int>, swapOut: Option<int>)

  const MsPerHour: int := 3600000
  const MsPerMinute: int := 60000

  // ----- duration text -----

  /** The hours and minutes `formatDuration` shows (floored hours, truncating `%`). */
  function HoursMinutes(ms: int): (hm: (int, int))
    ensures -60 <= hm.1 < 60
    ensures ms >= 0 ==>
      (hm.0 >= 0 && 0 <= hm.1
       && hm.0 * MsPerHour + hm.1 * MsPerMinute <= ms < hm.0 * MsPerHour + (hm.1 + 1) * MsPerMinute)
  {
    var h := ms / MsPerHour;
    var rem := JsRem(ms, MsPerHour);
    var m := rem / MsPerMinute;
    assert ms >= 0 ==> rem == ms - h * MsPerHour;
    (h, m)
  }

  /** `formatDuration(ms)`: "<h>h <m>m", the hours part omitted when zero; seconds are dropped. */
  function FormatDuration(ms: int): (s: string)
    ensures |s| >= 2 && s[|s| - 1] == 'm'
    ensures (HoursMinutes(ms).0 == 0) <==> 'h' !in s
  {
    var (h, m) := HoursMinutes(ms);
    var text := (if h != 0 then IntToString(h) + "h " else "") + IntToString(m) + "m";
    assert |text| >= 2 && (h == 0 <==> 'h' !in text) && text[|text| - 1] == 'm' by {
      NoHourMark(IntToString(m));
      if h != 0 {
        NoHourMark(IntToString(h));
        assert text[|IntToString(h)|] == 'h';
      } else {
        assert text == IntToString(m) + "m";
      }
    }
    text
  }

  lemma NoHourMark(s: string)
    requires forall k :: 0 <= k < |s| ==> IsDigit(s[k]) || s[k] == '-'
    ensures 'h' !in s
  {
  }

  // ----- total worked time -----

  /** What one entry adds to the total: its length if it has both instants, else 0. */
  function Worked(e: HistoryEntry): int {
    if e.swapIn.Some? && e.swapOut.Some? then e.swapOut.value - e.swapIn.value else 0
  }

  /** The total over a list, accumulated left to right. */
  function TotalOf(s: seq<HistoryEntry>): int {
    if s == [] then 0 else TotalOf(s[..|s| - 1]) + Worked(s[|s| - 1])
  }

  /** The `forEach` loop that builds the page's `total`. */
  method ComputeTotal(data: seq<HistoryEntry>) returns (sum: int)
    ensures sum == TotalOf(data)
  {
    sum := 0;
    for i := 0 to |data|
      invariant sum == TotalOf(data[..i])
    {
      assert data[..i + 1][..i] == data[..i];
      if data[i].swapIn.Some? && data[i].swapOut.Some? {
        sum := sum + (data[i].swapOut.value - data[i].swapIn.value);
      }
    }
    assert data[..|data|] == data;
  }

  lemma {:induction false} TotalAppend(a: seq<HistoryEntry>, b: seq<HistoryEntry>)
    ensures TotalOf(a + b) == TotalOf(a) + TotalOf(b)
  {
    if b == [] {
      assert a + b == a;
    } else {
      assert (a + b)[..|a + b| - 1] == a + b[..|b| - 1];
      TotalAppend(a, b[..|b| - 1]);
    }
  }

  /** Taking one entry out of a list takes exactly its contribution out of the total. */
  lemma {:induction false} TotalRemoveAt(b: seq<HistoryEntry>, k: nat)
    requires k < |b|
    ensures TotalOf(b) == TotalOf(b[..k] + b[k + 1..]) + Worked(b[k])
  {
    var front := b[..k] + [b[k]];
    assert b == front + b[k + 1..];
    assert front[..|front| - 1] == b[..k];
    TotalAppend(front, b[k + 1..]);
    TotalAppend(b[..k], b[k + 1..]);
  }

  /** The total does not depend on the order of the entries. */
  lemma {:induction false} TotalIgnoresOrder(a: seq<HistoryEntry>, b: seq<HistoryEntry>)
    requires multiset(a) == multiset(b)
    ensures TotalOf(a) == TotalOf(b)
  {
    if a != [] {
      var n := |a| - 1;
      var x := a[n];
      assert a == a[..n] + [x];
      assert x in multiset(b);
      var k :| 0 <= k < |b| && b[k] == x;
      var rest := b[..k] + b[k + 1..];
      assert b == b[..k] + [x] + b[k + 1..];
      assert multiset(a[..n]) == multiset(a) - multiset{x};
      assert multiset(rest) == multiset(b) - multiset{x};
      TotalIgnoresOrder(a[..n], rest);
      TotalRemoveAt(b, k);
    }
  }

  /** An entry without a swap-out instant (or without a swap-in) leaves the total unchanged wherever it is. */
  lemma TotalIgnoresOpenEntry(a: seq<HistoryEntry>, e: HistoryEntry, b: seq<HistoryEntry>)
    requires e.swapIn.None? || e.swapOut.None?
    ensures TotalOf(a + [e] + b) == TotalOf(a + b)
  {
    TotalAppend(a + [e], b);
    TotalAppend(a, b);
    assert (a + [e])[..|a + [e]| - 1] == a;
  }

  /** With every entry completed and none negative, the total is non-negative and at least the last shift's length. */
  lemma {:induction false} TotalOfCompleted(s: seq<HistoryEntry>)
    requires forall e :: e in s ==> e.swapIn.Some? && e.swapOut.Some?
    requires forall e :: e in s ==> e.swapIn.value <= e.swapOut.value
    ensures TotalOf(s) >= 0
    ensures s != [] ==> TotalOf(s) >= s[|s| - 1].swapOut.value - s[|s| - 1].swapIn.value
  {
    if s != [] {
      var init := s[..|s| - 1];
      assert forall e :: e in init ==> e in s;
      TotalOfCompleted(init);
    }
  }

  // ----- keeping entries and ids -----

  /** `r` is `s` with some elements left out, the rest in their original order. */
  predicate IsSubsequence<T(==)>(r: seq<T>, s: seq<T>) {
    if r == [] then true
    else if s == [] then false
    else if r[0] == s[0] then IsSubsequence(r[1..], s[1..])
    else IsSubsequence(r, s[1..])
  }

  /** `Array.prototype.filter`. */
  function Keep<T(==,!new)>(s: seq<T>, keep: T -> bool): (r: seq<T>)
    ensures forall x :: multiset(r)[x] == if keep(x) then multiset(s)[x] else 0
    ensures forall x :: x in r ==> keep(x)
    ensures IsSubsequence(r, s)
  {
    if s == [] then []
    else
      var rest := Keep(s[1..], keep);
      assert s == [s[0]] + s[1..];
      if keep(s[0]) then
        assert ([s[0]] + rest)[1..] == rest;
        [s[0]] + rest
      else
        assert rest != [] ==> rest[0] != s[0] && IsSubsequence(rest, s[1..]);
        rest
  }

  /** Ids of entries in list order. */
  function Ids(entries: seq<HistoryEntry>): (r: seq<string>)
    ensures |r| == |entries| && forall i :: 0 <= i < |r| ==> r[i] == entries[i].id
  {
    seq(|entries|, i requires 0 <= i < |entries| => entries[i].id)
  }

  // ----- the page state -----

  /** What the delete handler is given: one row's id or the selected ids. */
  datatype DeleteTarget = One(id: string) | Many(ids: seq<string>)

  /** `Array.isArray(ids) ? ids : [ids]`. */
  function IdList(t: DeleteTarget): (r: seq<string>)
    ensures t.One? ==> |r| == 1
    ensures forall id :: id in r <==> if t.One? then id == t.id else id in t.ids
  {
    match t
    case One(id) => [id]
    case Many(ids) => ids
  }

  /** The page state this model tracks: loaded entries, selected ids and the displayed total. */
  datatype HistoryView = HistoryView(entries: seq<HistoryEntry>, selected: seq<string>, total: int)

  /** State right after a load: the entries of the period and their total; selection kept. */
  function Loaded(v: HistoryView, data: seq<HistoryEntry>): (r: HistoryView)
    ensures r.entries == data && r.selected == v.selected && r.total == TotalOf(data)
  {
    HistoryView(data, v.selected, TotalOf(data))
  }

  /**
   * `handleDelete(ids)`: drop every entry whose id is listed, keep the others
   * in order, and empty the selection. The total is left as it was.
   */
  function HandleDelete(v: HistoryView, t: DeleteTarget): (r: HistoryView)
    ensures forall e :: multiset(r.entries)[e] == if e.id in IdList(t) then 0 else multiset(v.entries)[e]
    ensures forall e :: e in r.entries ==> e.id !in IdList(t)
    ensures IsSubsequence(r.entries, v.entries)
    ensures r.selected == []
    ensures r.total == v.total
  {
    var ids := IdList(t);
    HistoryView(Keep(v.entries, (e: HistoryEntry) => e.id !in ids), [], v.total)
  }

  /** A single id behaves as a one-element list. */
  lemma DeleteOneIsDeleteList(v: HistoryView, id: string)
    ensures HandleDelete(v, One(id)) == HandleDelete(v, Many([id]))
  {
  }

  /** The corrected delete handler: as `HandleDelete`, and the total follows the remaining entries. */
  function HandleDeleteRecomputingTotal(v: HistoryView, t: DeleteTarget): (r: HistoryView)
    ensures r.entries == HandleDelete(v, t).entries && r.selected == []
    ensures r.total == TotalOf(r.entries)
    ensures v.total == TotalOf(v.entries) ==>
      v.total - r.total == TotalOf(Keep(v.entries, (e: HistoryEntry) => e.id in IdList(t)))
  {
    var kept := HandleDelete(v, t).entries;
    var ids := IdList(t);
    KeepSplitsTotal(v.entries, (e: HistoryEntry) => e.id !in ids, (e: HistoryEntry) => e.id in ids);
    HistoryView(kept, [], TotalOf(kept))
  }

  lemma {:induction false} KeepSplitsTotal(s: seq<HistoryEntry>, keep: HistoryEntry -> bool, drop: HistoryEntry -> bool)
    requires forall e :: drop(e) == !keep(e)
    ensures TotalOf(s) == TotalOf(Keep(s, keep)) + TotalOf(Keep(s, drop))
  {
    var a, b := Keep(s, keep), Keep(s, drop);
    assert multiset(s) == multiset(a) + multiset(b) by {
      forall x ensures multiset(s)[x] == multiset(a)[x] + multiset(b)[x] {
        assert drop(x) == !keep(x);
      }
    }
    assert multiset(a + b) == multiset(a) + multiset(b);
    TotalIgnoresOrder(s, a + b);
    TotalAppend(a, b);
  }

  /**
   * Deleting a completed entry of positive length leaves the displayed total
   * stale: it still counts the deleted entry.
   */
  lemma DeleteLeavesTotalStale()
    ensures var e := HistoryEntry("a", Some(0), Some(MsPerHour));
      var v := Loaded(HistoryView([], [], 0), [e]);
      var r := HandleDelete(v, One("a"));
      r.entries == [] && r.total == MsPerHour && r.total != TotalOf(r.entries)
  {
    var e := HistoryEntry("a", Some(0), Some(MsPerHour));
    var v := Loaded(HistoryView([], [], 0), [e]);
    assert [e][..0] == [];
    assert TotalOf([e]) == MsPerHour;
    var r := HandleDelete(v, One("a"));
    assert [e][1..] == [];
  }

  // ----- selection -----

  /** The select-all box is checked when as many ids are selected as there are entries, and there are some. */
  predicate AllSelected(v: HistoryView): (b: bool)
    ensures b ==> v.entries != [] && v.selected != []
  {
    |v.selected| == |v.entries| && |v.entries| > 0
  }

  /**
   * The box compares counts, not ids: with two entries, selecting the first
   * row's id twice shows the box checked although the second row is not selected.
   */
  lemma AllSelectedCountsOnly(a: HistoryEntry, b: HistoryEntry)
    requires a.id != b.id
    ensures var v := HistoryView([a, b], [a.id, a.id], 0);
      AllSelected(v) && b.id !in v.selected
  {
  }

  /** Changing the select-all box: checked selects every entry id in order, unchecked selects none. */
  function ToggleAll(v: HistoryView, checked: bool): (r: HistoryView)
    ensures r.entries == v.entries && r.total == v.total
    ensures checked ==> r.selected == Ids(v.entries)
    ensures !checked ==> r.selected == []
    ensures AllSelected(r) <==> checked && |v.entries| > 0
  {
    v.(selected := if checked then Ids(v.entries) else [])
  }

  /**
   * Changing a row's box: checking appends the row's id; unchecking removes
   * every occurrence of it and keeps the other ids in order.
   */
  function ToggleRow(v: HistoryView, id: string, checked: bool): (r: HistoryView)
    ensures r.entries == v.entries && r.total == v.total
    ensures checked ==> r.selected == v.selected + [id]
    ensures !checked ==> id !in r.selected && IsSubsequence(r.selected, v.selected)
    ensures !checked ==> forall x :: x != id ==> multiset(r.selected)[x] == multiset(v.selected)[x]
  {
    v.(selected := if checked then v.selected + [id] else Keep(v.selected, x => x != id))
  }

  /** After any delete the select-all box is unchecked. */
  lemma DeleteClearsSelectAll(v: HistoryView, t: DeleteTarget)
    ensures !AllSelected(HandleDelete(v, t))
  {
  }
}
