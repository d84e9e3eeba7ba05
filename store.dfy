/** The reminder store of `rd.py`: the list of reminders the process holds
    (the cached `_reminders`, ids included) and the records in the save file,
    with the operations that change them. Each command of `rd` loads the file
    once, so the ids in the list are those assigned at the last load or save;
    `stamp` records the clock reading they were assigned at. */
module Scheduler {
  import opened Opt
  import opened Calendar
  import opened DueParser
  import opened Reminders

  class Store {
    /** `_reminders`: the list as last loaded or saved, ids included. */
    var items: seq<Reminder>
    /** The records in the save file `~/.rd`. */
    var disk: seq<Record>
    /** The `now` at which the ids in `items` were last assigned. */
    ghost var stamp: int

    /** The ids in the list are the ones `add_ids` gives it at `stamp`. */
    ghost predicate Valid()
      reads this
    {
      items == WithIds(items, stamp)
    }

    /** `get_reminders` on first use: the saved records, numbered as of `now`
        (an absent save file is the empty list). */
    constructor Load(saved: seq<Record>, now: int)
      ensures Valid() && stamp == now
      ensures items == WithIds(FromRecords(saved), now)
      ensures Records(items) == saved && disk == saved
    {
      items := FromRecords(saved);
      disk := saved;
      stamp := now;
      new;
      AddIds(now);
      RecordsOfLoaded(saved);
      WithIdsKeepsRecords(FromRecords(saved), now);
    }

    /** `add_ids`: walk the list, drop every old id, and number the reminders
        due at `now` 1, 2, ... in list order. */
    method AddIds(now: int)
      modifies this
      ensures items == WithIds(old(items), now)
      ensures Valid() && stamp == now && disk == old(disk)
    {
      ghost var before := items;
      var rs := items;
      var given := 0;
      var i := 0;
      while i < |rs|
        invariant |rs| == |before| && 0 <= i <= |rs|
        invariant rs[..i] == WithIds(before[..i], now)
        invariant rs[i..] == before[i..]
        invariant given == CountDue(before[..i], now)
        modifies {}
      {
        ghost var numbered := before[i].(id := if before[i].due <= now then Some(given + 1) else None);
        WithIdsNext(before, now, i);
        assert rs[i] == before[i];
        ghost var done := rs[..i];
        rs := rs[i := rs[i].(id := None)];
        if rs[i].due <= now {
          rs := rs[i := rs[i].(id := Some(given + 1))];
          given := given + 1;
        }
        assert rs[..i + 1] == done + [numbered];
        assert rs[i + 1..] == before[i + 1..];
        i := i + 1;
      }
      assert rs == rs[..i] && before == before[..i];
      WithIdsIdempotent(before, now);
      items := rs;
      stamp := now;
    }

    /** `save_reminders`: renumber as of `now` and write the records, ids
        left out, to the save file. */
    method Save(now: int)
      modifies this
      ensures items == WithIds(old(items), now)
      ensures Valid() && stamp == now
      ensures disk == Records(old(items)) && disk == Records(items)
    {
      AddIds(now);
      disk := Records(items);
      WithIdsKeepsRecords(old(items), now);
    }

    /** `add_reminder`: parse the due string; on failure nothing changes.
        Otherwise append the new reminder, stable-sort most recently due
        first, and save. */
    method Add(dueStr: string, text: string, today: Date, now: int) returns (parsed: Parsed)
      requires Calendar.Valid(today)
      modifies this
      ensures parsed == ParseDue(dueStr, today)
      ensures parsed.due.None? ==> items == old(items) && disk == old(disk) && stamp == old(stamp)
      ensures parsed.due.Some? ==>
                var added := Record(text, Instant(parsed.due.value));
                && items == WithIds(SortByDueDesc(old(items) + [Reminder(text, added.due, None)]), now)
                && Valid() && stamp == now
                && SortedDesc(items)
                && multiset(Records(items)) == multiset(Records(old(items))) + multiset{added}
                && disk == Records(items)
    {
      parsed := ParseDue(dueStr, today);
      if parsed.due.None? {
        return;
      }
      var reminder := Reminder(text, Instant(parsed.due.value), None);
      AddedAndSorted(items, reminder, now);
      items := SortByDueDesc(items + [reminder]);
      Save(now);
    }

    /** `mark_done`: find the reminder whose id is `k`; when there is none,
        nothing changes. Otherwise there is exactly one; delete it and save. */
    method MarkDone(k: int, now: int) returns (removed: Option<Reminder>)
      requires Valid()
      modifies this
      ensures removed.None? <==> !(1 <= k <= CountDue(old(items), old(stamp)))
      ensures removed.None? ==> items == old(items) && disk == old(disk) && stamp == old(stamp)
      ensures removed.Some? ==> |Matching(old(items), k)| == 1
      ensures removed.Some? ==>
                var i := Matching(old(items), k)[0];
                var rest := old(items)[..i] + old(items)[i + 1..];
                && removed.value == old(items)[i]
                && removed.value.id == Some(k)
                && removed.value.due <= old(stamp)
                && CountDue(old(items)[..i], old(stamp)) == k - 1
                && items == WithIds(rest, now)
                && Valid() && stamp == now
                && disk == Records(rest)
                && (SortedDesc(old(items)) ==> SortedDesc(items))
    {
      MatchingNumbered(items, stamp, k);
      var matching := Matching(items, k);
      if |matching| == 0 {
        return None;
      }
      var index := matching[0];
      MatchedIsKth(items, stamp, k, index);
      removed := Some(items[index]);
      ghost var rest := items[..index] + items[index + 1..];
      if SortedDesc(items) {
        RemoveKeepsSorted(items, index);
      }
      items := items[..index] + items[index + 1..];
      Save(now);
      if SortedDesc(rest) {
        WithIdsKeepsSorted(rest, now);
      }
    }

    /** The listing loop of `print_reminders`: every reminder when `showAll`,
        otherwise those due at `now`, in list order; `nothingShown` is the
        "No reminders right now!" case. */
    method Show(showAll: bool, now: int) returns (shown: seq<Reminder>, nothingShown: bool)
      ensures shown == if showAll then items else DueNow(items, now)
      ensures nothingShown <==> shown == []
      ensures Valid() && stamp == now && !showAll ==>
                forall j :: 0 <= j < |shown| ==> shown[j].id == Some(j + 1)
    {
      shown := [];
      var printed := 0;
      var i := 0;
      while i < |items|
        invariant 0 <= i <= |items|
        invariant shown == if showAll then items[..i] else DueNow(items[..i], now)
        invariant printed == |shown|
      {
        assert items[..i + 1][..i] == items[..i];
        if items[i].due <= now || showAll {
          shown := shown + [items[i]];
          printed := printed + 1;
        }
        i := i + 1;
      }
      nothingShown := printed == 0;
      assert items[..i] == items;
      if Valid() && stamp == now {
        ShownIdsDense(items, now);
      }
    }
  }

  /** The example below runs on 2024-03-01: a reminder due at 2pm, a run of
      `rd add` in the morning and two runs of `rd` at 3pm. */
  const ExampleDay := Date(2024, 3, 1)
  const MorningInstant := Instant(Moment(ExampleDay, 9, 0, 0))
  const TwoPmInstant := Instant(Moment(ExampleDay, 14, 0, 0))
  const ThreePmInstant := Instant(Moment(ExampleDay, 15, 0, 0))

  /** In the morning, `rd add +0@2pm Call Bob` on an empty save file saves
      one record, due at 2pm that day. */
  method AddCallBob() returns (saved: seq<Record>)
    ensures saved == [Record("Call Bob", TwoPmInstant)]
  {
    var store := new Store.Load([], MorningInstant);
    SameDayAfternoon(ExampleDay);
    var parsed := store.Add("+0@2pm", "Call Bob", ExampleDay, MorningInstant);
    var bob := Reminder("Call Bob", TwoPmInstant, None);
    assert SortByDueDesc([] + [bob]) == [bob];
    saved := store.disk;
  }

  /** At 3pm, `rd` lists that reminder as number 1. */
  method ListCallBob() returns (shown: seq<Reminder>)
    ensures shown == [Reminder("Call Bob", TwoPmInstant, Some(1))]
  {
    var store := new Store.Load([Record("Call Bob", TwoPmInstant)], ThreePmInstant);
    var nothingShown;
    shown, nothingShown := store.Show(false, ThreePmInstant);
  }

  /** Then `rd done 1` removes it and empties the save file, after which `rd`
      has nothing to show. */
  method DoneCallBob() returns (removed: Option<Reminder>, nothingShown: bool)
    ensures removed == Some(Reminder("Call Bob", TwoPmInstant, Some(1)))
    ensures nothingShown
  {
    var store := new Store.Load([Record("Call Bob", TwoPmInstant)], ThreePmInstant);
    ghost var listed := store.items;
    assert listed == [Reminder("Call Bob", TwoPmInstant, Some(1))];
    removed := store.MarkDone(1, ThreePmInstant);
    assert listed[..0] + listed[1..] == [];
    var after := new Store.Load(store.disk, ThreePmInstant);
    var shown;
    shown, nothingShown := after.Show(false, ThreePmInstant);
  }
}
