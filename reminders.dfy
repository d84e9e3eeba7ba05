/** The reminder list as values: the persisted records, the in-memory reminders
    with their transient display ids, and the pure specifications of the
    operations `rd.py` performs on the list (the due-now filter, id numbering,
    the stable sort by due time, the id lookup). */
module Reminders {
  import opened Opt

  /** A record as written to the save file: exactly `text` and `due`. */
  datatype Record = Record(text: string, due: int)

  /** A reminder dict in memory: a record plus the transient `id` key. */
  datatype Reminder = Reminder(text: string, due: int, id: Option<int>)

  /** The `core_reminders` comprehension of `save_reminders`: drop the ids. */
  function Records(rs: seq<Reminder>): seq<Record>
  {
    seq(|rs|, i requires 0 <= i < |rs| => Record(rs[i].text, rs[i].due))
  }

  /** The dicts `json.load` returns: records without an id. */
  function FromRecords(records: seq<Record>): seq<Reminder>
  {
    seq(|records|, i requires 0 <= i < |records| => Reminder(records[i].text, records[i].due, None))
  }

  lemma RecordsOfLoaded(records: seq<Record>)
    ensures Records(FromRecords(records)) == records
  {
  }

  lemma RecordsAppend(a: seq<Reminder>, b: seq<Reminder>)
    ensures Records(a + b) == Records(a) + Records(b)
  {
  }

  /** The reminders due at `now`, in list order: what `rd` shows. */
  function DueNow(rs: seq<Reminder>, now: int): (due: seq<Reminder>)
    ensures |due| <= |rs|
  {
    if rs == [] then []
    else
      var last := rs[|rs| - 1];
      DueNow(rs[..|rs| - 1], now) + (if last.due <= now then [last] else [])
  }

  /** The due-now view holds exactly the reminders due at `now`. */
  lemma {:induction false} DueNowMember(rs: seq<Reminder>, now: int, r: Reminder)
    ensures r in DueNow(rs, now) <==> r in rs && r.due <= now
  {
    if rs != [] {
      var n := |rs| - 1;
      DueNowMember(rs[..n], now, r);
      assert rs == rs[..n] + [rs[n]];
    }
  }

  /** K, the number of reminders due at `now`. */
  function CountDue(rs: seq<Reminder>, now: int): nat
  {
    |DueNow(rs, now)|
  }

  /** `add_ids`: every reminder loses its old id, and the reminders due at
      `now` are numbered 1, 2, ... in list order. */
  function WithIds(rs: seq<Reminder>, now: int): seq<Reminder>
  {
    if rs == [] then []
    else
      var init, last := rs[..|rs| - 1], rs[|rs| - 1];
      WithIds(init, now)
        + [last.(id := if last.due <= now then Some(CountDue(init, now) + 1) else None)]
  }

  /** Numbering keeps the length, the order and every text and due time: only
      the ids change. */
  lemma {:induction false} WithIdsKeepsRecords(rs: seq<Reminder>, now: int)
    ensures |WithIds(rs, now)| == |rs|
    ensures Records(WithIds(rs, now)) == Records(rs)
  {
    if rs != [] {
      var init := rs[..|rs| - 1];
      WithIdsKeepsRecords(init, now);
      RecordsAppend(init, [rs[|rs| - 1]]);
      assert rs == init + [rs[|rs| - 1]];
      var ws := WithIds(init, now);
      RecordsAppend(ws, [WithIds(rs, now)[|rs| - 1]]);
    }
  }

  /** Which reminders are due depends only on the due times. */
  lemma {:induction false} CountDueOfRecords(a: seq<Reminder>, b: seq<Reminder>, now: int)
    requires Records(a) == Records(b)
    ensures CountDue(a, now) == CountDue(b, now)
  {
    assert |a| == |Records(a)| == |b|;
    if a != [] {
      var n := |a| - 1;
      assert Records(a[..n]) == Records(a)[..n] == Records(b)[..n] == Records(b[..n]);
      assert Records(a)[n] == Records(b)[n];
      CountDueOfRecords(a[..n], b[..n], now);
    }
  }

  /** The id of the i-th reminder: the number of due reminders up to and
      including it, when it is due itself, and none otherwise. */
  lemma {:induction false} WithIdsAt(rs: seq<Reminder>, now: int, i: int)
    requires 0 <= i < |rs|
    ensures |WithIds(rs, now)| == |rs|
    ensures WithIds(rs, now)[i]
            == rs[i].(id := if rs[i].due <= now then Some(CountDue(rs[..i], now) + 1) else None)
  {
    WithIdsKeepsRecords(rs, now);
    var n := |rs| - 1;
    if i < n {
      WithIdsAt(rs[..n], now, i);
      assert rs[..n][..i] == rs[..i];
      WithIdsKeepsRecords(rs[..n], now);
    } else {
      assert rs[..i] == rs[..n];
    }
  }

  /** Numbering one more reminder of `rs` extends the numbered prefix by that
      reminder with its new id. */
  lemma WithIdsNext(rs: seq<Reminder>, now: int, i: int)
    requires 0 <= i < |rs|
    ensures WithIds(rs[..i + 1], now)
            == WithIds(rs[..i], now)
               + [rs[i].(id := if rs[i].due <= now then Some(CountDue(rs[..i], now) + 1) else None)]
    ensures CountDue(rs[..i + 1], now) == CountDue(rs[..i], now) + (if rs[i].due <= now then 1 else 0)
  {
    assert rs[..i + 1][..i] == rs[..i];
  }

  /** Counting due reminders over a longer prefix never gives fewer. */
  lemma {:induction false} CountDueMonotone(rs: seq<Reminder>, now: int, i: int, j: int)
    requires 0 <= i <= j <= |rs|
    ensures CountDue(rs[..i], now) <= CountDue(rs[..j], now)
    decreases j
  {
    if i < j {
      CountDueMonotone(rs, now, i, j - 1);
      WithIdsNext(rs, now, j - 1);
    }
  }

  /** The ids handed out increase strictly along the list, so no two
      reminders share one. */
  lemma IdsIncrease(rs: seq<Reminder>, now: int, i: int, j: int)
    requires 0 <= i < j < |rs|
    ensures |WithIds(rs, now)| == |rs|
    ensures WithIds(rs, now)[i].id.Some? && WithIds(rs, now)[j].id.Some? ==>
              WithIds(rs, now)[i].id.value < WithIds(rs, now)[j].id.value
  {
    WithIdsAt(rs, now, i);
    WithIdsAt(rs, now, j);
    WithIdsNext(rs, now, i);
    CountDueMonotone(rs, now, i + 1, j);
  }

  /** Exactly the reminders due at `now` get an id, and it lies in 1..K. */
  lemma IdsRange(rs: seq<Reminder>, now: int, i: int)
    requires 0 <= i < |rs|
    ensures |WithIds(rs, now)| == |rs|
    ensures WithIds(rs, now)[i].id.Some? <==> rs[i].due <= now
    ensures WithIds(rs, now)[i].id.Some? ==> 1 <= WithIds(rs, now)[i].id.value <= CountDue(rs, now)
  {
    WithIdsAt(rs, now, i);
    WithIdsNext(rs, now, i);
    CountDueMonotone(rs, now, i + 1, |rs|);
    assert rs[..|rs|] == rs;
  }

  /** The due-now view of a freshly numbered list carries the ids 1..K, in
      order and without gaps. */
  lemma {:induction false} ShownIdsDense(rs: seq<Reminder>, now: int)
    ensures |DueNow(WithIds(rs, now), now)| == CountDue(rs, now)
    ensures forall k :: 0 <= k < CountDue(rs, now) ==> DueNow(WithIds(rs, now), now)[k].id == Some(k + 1)
  {
    if rs != [] {
      var n := |rs| - 1;
      var init, last := rs[..n], rs[n];
      ShownIdsDense(init, now);
      WithIdsKeepsRecords(init, now);
      WithIdsKeepsRecords(rs, now);
      var ws := WithIds(rs, now);
      assert ws[..n] == WithIds(init, now);
      var before := DueNow(WithIds(init, now), now);
      assert DueNow(ws, now) == before + (if last.due <= now then [ws[n]] else []);
      assert CountDue(rs, now) == CountDue(init, now) + (if last.due <= now then 1 else 0);
    }
  }

  /** Numbering twice at the same `now` gives the same ids as numbering once:
      a second listing shows the same numbers. */
  lemma {:induction false} WithIdsIdempotent(rs: seq<Reminder>, now: int)
    ensures WithIds(WithIds(rs, now), now) == WithIds(rs, now)
  {
    if rs != [] {
      var n := |rs| - 1;
      var ws := WithIds(rs, now);
      WithIdsKeepsRecords(rs, now);
      WithIdsKeepsRecords(rs[..n], now);
      assert ws[..n] == WithIds(rs[..n], now);
      WithIdsIdempotent(rs[..n], now);
      CountDueOfRecords(ws[..n], rs[..n], now);
    }
  }

  /** The indices whose id is `k` (the `matching` comprehension of `mark_done`). */
  function Matching(rs: seq<Reminder>, k: int): (m: seq<nat>)
    ensures forall j :: 0 <= j < |m| ==> m[j] < |rs| && rs[m[j]].id == Some(k)
    ensures forall i :: 0 <= i < |rs| && rs[i].id == Some(k) ==> i in m
  {
    if rs == [] then []
    else
      var n := |rs| - 1;
      Matching(rs[..n], k) + (if rs[n].id == Some(k) then [n] else [])
  }

  /** On a freshly numbered list, an id in 1..K matches exactly one reminder,
      the k-th due one; any other id matches none. */
  lemma {:induction false} MatchingNumbered(rs: seq<Reminder>, now: int, k: int)
    ensures var m := Matching(WithIds(rs, now), k);
            && (1 <= k <= CountDue(rs, now) ==> |m| == 1)
            && (!(1 <= k <= CountDue(rs, now)) ==> m == [])
  {
    if rs != [] {
      var n := |rs| - 1;
      var ws := WithIds(rs, now);
      WithIdsKeepsRecords(rs, now);
      assert ws[..n] == WithIds(rs[..n], now);
      MatchingNumbered(rs[..n], now, k);
    }
  }

  /** Whatever matches id k in a freshly numbered list is the k-th reminder due. */
  lemma MatchedIsKth(rs: seq<Reminder>, now: int, k: int, i: int)
    requires 0 <= i < |rs| && |WithIds(rs, now)| == |rs| && WithIds(rs, now)[i].id == Some(k)
    ensures rs[i].due <= now && CountDue(rs[..i], now) == k - 1
  {
    WithIdsAt(rs, now, i);
  }

  /** Most recently due first. */
  predicate SortedDesc(rs: seq<Reminder>)
  {
    forall i, j :: 0 <= i < j < |rs| ==> rs[i].due >= rs[j].due
  }

  /** In a list sorted most recently due first, the reminders due at `now`
      are its last K entries: the ones shown are a suffix. */
  lemma {:induction false} DueNowIsSuffix(rs: seq<Reminder>, now: int)
    requires SortedDesc(rs)
    ensures DueNow(rs, now) == rs[|rs| - CountDue(rs, now)..]
  {
    if rs != [] {
      var n := |rs| - 1;
      var init, last := rs[..n], rs[n];
      assert SortedDesc(init);
      DueNowIsSuffix(init, now);
      var c := CountDue(init, now);
      if last.due <= now {
        assert DueNow(rs, now) == DueNow(init, now) + [last];
        assert rs[n - c..] == init[n - c..] + [last];
      } else {
        NoneDueYet(rs, now);
      }
    }
  }

  /** When the last entry of a sorted list is not yet due, none is. */
  lemma {:induction false} NoneDueYet(rs: seq<Reminder>, now: int)
    requires SortedDesc(rs) && rs != [] && rs[|rs| - 1].due > now
    ensures DueNow(rs, now) == []
  {
    var n := |rs| - 1;
    if n > 0 {
      assert rs[n - 1].due >= rs[n].due;
      NoneDueYet(rs[..n], now);
    }
  }

  /** The reminders whose due time is `v`, in list order. */
  function WithDue(rs: seq<Reminder>, v: int): seq<Reminder>
  {
    if rs == [] then []
    else (if rs[0].due == v then [rs[0]] else []) + WithDue(rs[1..], v)
  }

  lemma {:induction false} WithDueAppend(a: seq<Reminder>, b: seq<Reminder>, v: int)
    ensures WithDue(a + b, v) == WithDue(a, v) + WithDue(b, v)
    decreases |a|
  {
    if a == [] {
      assert a + b == b;
    } else {
      var head := if a[0].due == v then [a[0]] else [];
      assert (a + b)[0] == a[0];
      assert (a + b)[1..] == a[1..] + b;
      assert WithDue(a + b, v) == head + WithDue(a[1..] + b, v);
      WithDueAppend(a[1..], b, v);
    }
  }

  /** The group for `v` holds exactly the reminders due at `v`. */
  lemma {:induction false} WithDueMember(rs: seq<Reminder>, v: int, r: Reminder)
    ensures r in WithDue(rs, v) <==> r in rs && r.due == v
  {
    if rs != [] {
      WithDueMember(rs[1..], v, r);
      assert rs == [rs[0]] + rs[1..];
    }
  }

  lemma AppendOneWithDue(s: seq<Reminder>, x: Reminder)
    ensures forall v :: WithDue(s + [x], v) == WithDue(s, v) + (if x.due == v then [x] else [])
  {
    forall v ensures WithDue(s + [x], v) == WithDue(s, v) + (if x.due == v then [x] else []) {
      WithDueAppend(s, [x], v);
    }
  }

  /** `x` placed after every reminder due no earlier than it: one step of a
      stable sort by due time, most recent first. */
  function Insert(s: seq<Reminder>, x: Reminder): seq<Reminder>
  {
    if s == [] then [x]
    else if s[0].due >= x.due then [s[0]] + Insert(s[1..], x)
    else [x] + s
  }

  /** Inserting adds exactly `x`: the result is a permutation of `s` and `x`. */
  lemma {:induction false} InsertPermutes(s: seq<Reminder>, x: Reminder)
    ensures multiset(Insert(s, x)) == multiset(s) + multiset{x}
  {
    if s != [] && s[0].due >= x.due {
      InsertPermutes(s[1..], x);
      assert s == [s[0]] + s[1..];
    }
  }

  /** A bound on the due times of `s` and `x` bounds those of the insertion. */
  lemma {:induction false} InsertBounded(s: seq<Reminder>, x: Reminder, b: int)
    requires forall i | 0 <= i < |s| :: s[i].due <= b
    requires x.due <= b
    ensures forall k | 0 <= k < |Insert(s, x)| :: Insert(s, x)[k].due <= b
  {
    if s != [] && s[0].due >= x.due {
      var t := Insert(s[1..], x);
      InsertBounded(s[1..], x, b);
      forall k | 0 <= k < |[s[0]] + t| ensures ([s[0]] + t)[k].due <= b {
        if k > 0 {
          assert ([s[0]] + t)[k] == t[k - 1];
        }
      }
    }
  }

  /** Inserting into a list sorted most recently due first keeps it sorted. */
  lemma {:induction false} InsertSorted(s: seq<Reminder>, x: Reminder)
    requires SortedDesc(s)
    ensures SortedDesc(Insert(s, x))
  {
    if s != [] && s[0].due >= x.due {
      var t := Insert(s[1..], x);
      SortedTail(s);
      InsertSorted(s[1..], x);
      InsertBounded(s[1..], x, s[0].due);
      var r := [s[0]] + t;
      forall p, q | 0 <= p < q < |r| ensures r[p].due >= r[q].due {
        assert r[q] == t[q - 1];
        if p > 0 {
          assert r[p] == t[p - 1];
        }
      }
    }
  }

  /** Inserting keeps every group of equal-due reminders in order, with `x`
      last in its own group. */
  lemma {:induction false} InsertStable(s: seq<Reminder>, x: Reminder, v: int)
    requires SortedDesc(s)
    ensures WithDue(Insert(s, x), v) == WithDue(s, v) + (if x.due == v then [x] else [])
    decreases |s|
  {
    if s == [] {
    } else if s[0].due >= x.due {
      InsertLaterStable(s, x, v);
    } else {
      InsertFirstStable(s, x, v);
    }
  }

  lemma {:induction false} InsertLaterStable(s: seq<Reminder>, x: Reminder, v: int)
    requires SortedDesc(s) && s != [] && s[0].due >= x.due
    ensures WithDue(Insert(s, x), v) == WithDue(s, v) + (if x.due == v then [x] else [])
    decreases |s|, 0
  {
    var head, t := [s[0]], Insert(s[1..], x);
    var extra := if x.due == v then [x] else [];
    SortedTail(s);
    calc {
      WithDue(Insert(s, x), v);
      WithDue(head + t, v);
      { WithDueAppend(head, t, v); }
      WithDue(head, v) + WithDue(t, v);
      { InsertStable(s[1..], x, v); }
      WithDue(head, v) + (WithDue(s[1..], v) + extra);
      { WithDueAppend(head, s[1..], v); assert s == head + s[1..]; }
      WithDue(s, v) + extra;
    }
  }

  lemma SortedTail(s: seq<Reminder>)
    requires SortedDesc(s) && s != []
    ensures SortedDesc(s[1..])
  {
  }

  lemma InsertFirstStable(s: seq<Reminder>, x: Reminder, v: int)
    requires SortedDesc(s) && s != [] && s[0].due < x.due
    ensures WithDue(Insert(s, x), v) == WithDue(s, v) + (if x.due == v then [x] else [])
  {
    assert Insert(s, x) == [x] + s;
    WithDueAppend([x], s, v);
    if x.due == v {
      NoneDueAt(s, v);
    }
  }

  /** Nothing in a sorted list due before `v` is due at `v`. */
  lemma {:induction false} NoneDueAt(s: seq<Reminder>, v: int)
    requires SortedDesc(s) && s != [] && s[0].due < v
    ensures WithDue(s, v) == []
  {
    if |s| > 1 {
      assert s[0].due >= s[1].due;
      NoneDueAt(s[1..], v);
    }
  }

  /** `sorted(reminders, key=lambda x: x['due'], reverse=True)`: most recently
      due first, a permutation, and reminders due at the same time keep their
      order (Python's sort is stable, also in reverse). */
  function SortByDueDesc(rs: seq<Reminder>): (r: seq<Reminder>)
    ensures SortedDesc(r)
    ensures multiset(r) == multiset(rs)
    ensures forall v :: WithDue(r, v) == WithDue(rs, v)
  {
    if rs == [] then []
    else
      var init, last := rs[..|rs| - 1], rs[|rs| - 1];
      var sorted := SortByDueDesc(init);
      assert rs == init + [last];
      AppendOneWithDue(init, last);
      InsertSorted(sorted, last);
      InsertPermutes(sorted, last);
      forall v ensures WithDue(Insert(sorted, last), v) == WithDue(rs, v) {
        InsertStable(sorted, last, v);
      }
      Insert(sorted, last)
  }

  lemma FirstIsLatest(a: seq<Reminder>, y: Reminder)
    requires SortedDesc(a) && y in a
    ensures y.due <= a[0].due
  {
    var i :| 0 <= i < |a| && a[i] == y;
  }

  /** A list sorted most recently due first is fixed by which reminders share
      each due time and in what order: two such lists agreeing on that agree. */
  lemma {:induction false} SortedStableUnique(a: seq<Reminder>, b: seq<Reminder>)
    requires SortedDesc(a) && SortedDesc(b)
    requires forall v :: WithDue(a, v) == WithDue(b, v)
    ensures a == b
  {
    if a == [] && b == [] {
    } else if a == [] || b == [] {
      var c := if a == [] then b else a;
      WithDueMember(c, c[0].due, c[0]);
      assert false;
    } else {
      var m := a[0].due;
      WithDueMember(b, b[0].due, b[0]);
      WithDueMember(a, b[0].due, b[0]);
      FirstIsLatest(a, b[0]);
      WithDueMember(a, m, a[0]);
      WithDueMember(b, m, a[0]);
      FirstIsLatest(b, a[0]);
      assert WithDue(a, m) == [a[0]] + WithDue(a[1..], m);
      assert WithDue(b, m) == [b[0]] + WithDue(b[1..], m);
      forall v ensures WithDue(a[1..], v) == WithDue(b[1..], v) {
        if v != m {
          assert WithDue(a, v) == WithDue(a[1..], v);
          assert WithDue(b, v) == WithDue(b[1..], v);
        } else {
          assert WithDue(a, m)[1..] == WithDue(a[1..], m);
          assert WithDue(b, m)[1..] == WithDue(b[1..], m);
        }
      }
      SortedStableUnique(a[1..], b[1..]);
      assert a == [a[0]] + a[1..];
      assert b == [b[0]] + b[1..];
    }
  }

  /** `SortByDueDesc` is THE stable descending sort: any list sorted most
      recently due first that keeps the order of equal-due reminders is it. */
  lemma StableSortIsSortByDueDesc(rs: seq<Reminder>, t: seq<Reminder>)
    requires SortedDesc(t)
    requires forall v :: WithDue(t, v) == WithDue(rs, v)
    ensures t == SortByDueDesc(rs)
  {
    SortedStableUnique(t, SortByDueDesc(rs));
  }

  /** Sorting a list that is already sorted leaves it as it is. */
  lemma SortSorted(rs: seq<Reminder>)
    requires SortedDesc(rs)
    ensures SortByDueDesc(rs) == rs
  {
    StableSortIsSortByDueDesc(rs, rs);
  }

  /** Removing one entry keeps a list sorted. */
  lemma RemoveKeepsSorted(rs: seq<Reminder>, i: int)
    requires SortedDesc(rs) && 0 <= i < |rs|
    ensures SortedDesc(rs[..i] + rs[i + 1..])
  {
    var t := rs[..i] + rs[i + 1..];
    forall p, q | 0 <= p < q < |t| ensures t[p].due >= t[q].due {
      var p' := if p < i then p else p + 1;
      var q' := if q < i then q else q + 1;
      assert t[p] == rs[p'] && t[q] == rs[q'];
    }
  }

  /** Numbering changes no due time, so it keeps a list sorted. */
  lemma WithIdsKeepsSorted(rs: seq<Reminder>, now: int)
    requires SortedDesc(rs)
    ensures SortedDesc(WithIds(rs, now))
  {
    WithIdsKeepsRecords(rs, now);
    var ws := WithIds(rs, now);
    forall p, q | 0 <= p < q < |ws| ensures ws[p].due >= ws[q].due {
      assert Records(ws)[p] == Records(rs)[p] && Records(ws)[q] == Records(rs)[q];
    }
  }

  /** Reordering reminders reorders their records alike. */
  lemma {:induction false} RecordsPermutation(a: seq<Reminder>, b: seq<Reminder>)
    requires multiset(a) == multiset(b)
    ensures multiset(Records(a)) == multiset(Records(b))
    decreases |a|
  {
    if a == [] {
      assert |b| == |multiset(b)| == 0;
    } else {
      var x := a[0];
      assert x in multiset(b);
      var j :| 0 <= j < |b| && b[j] == x;
      var rest := b[..j] + b[j + 1..];
      assert b == b[..j] + [x] + b[j + 1..];
      assert a == [x] + a[1..];
      assert multiset(a[1..]) == multiset(a) - multiset{x};
      assert multiset(b) == multiset(b[..j]) + multiset{x} + multiset(b[j + 1..]);
      assert multiset(rest) == multiset(b) - multiset{x};
      RecordsPermutation(a[1..], rest);
      RecordsAppend([x], a[1..]);
      RecordsAppend(b[..j], b[j + 1..]);
      RecordsAppend(b[..j] + [x], b[j + 1..]);
      RecordsAppend(b[..j], [x]);
    }
  }

  /** Appending a reminder, sorting and renumbering gives a list sorted most
      recently due first whose records are the old ones plus the new one. */
  lemma AddedAndSorted(rs: seq<Reminder>, x: Reminder, now: int)
    ensures var ws := WithIds(SortByDueDesc(rs + [x]), now);
            && SortedDesc(ws)
            && multiset(Records(ws)) == multiset(Records(rs)) + multiset{Record(x.text, x.due)}
  {
    var sorted := SortByDueDesc(rs + [x]);
    WithIdsKeepsRecords(sorted, now);
    WithIdsKeepsSorted(sorted, now);
    RecordsPermutation(sorted, rs + [x]);
    RecordsAppend(rs, [x]);
    assert Records([x]) == [Record(x.text, x.due)];
    assert multiset(Records(rs + [x])) == multiset(Records(rs)) + multiset{Record(x.text, x.due)};
  }
}
