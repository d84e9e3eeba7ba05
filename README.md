# rd: the scheduling core of a command-line reminder tool, in Dafny

`rd.py` keeps dated text reminders in a save file (`~/.rd`). Plain `rd` shows
the reminders that are due, most recently due first, numbered 1, 2, ...;
`rd add day[@time] text` adds one; `rd done N` deletes the reminder shown as
number N; `rd ls` lists every reminder. This project models the logic under
those commands and proves what it promises:

- **Due strings** (`calendar.dfy`, `text.dfy`, `due_parser.dfy`). A due string is
  `day[@time]`. The day is `+N` (today plus N days) or `MM/DD`. The time is `Nam`,
  `Npm` or a bare hour, and `8am` when absent. A day that falls before today is
  moved to the same month and day next year. When that day lies within the 30
  days before today, a note is printed; the model returns the note as a flag.
  Dates follow Python's `datetime.date`: years 1 to 9999, leap years, day
  ordinals, and `date + timedelta` failing outside that range. A due moment
  becomes an integer instant that is ordered as (date, hour) is. Every
  exception the Python code can raise on the way is a parse failure (`None`).
- **The reminder list** (`reminders.dfy`, `store.dfy`). Class `Store` holds the
  list the process works on (`items`, with the transient ids) and the records
  in the save file (`disk`). `AddIds` renumbers the list in place: only the
  reminders due now get ids, 1..K in list order. `Add` appends a reminder,
  stable-sorts by due time (most recent first) and saves. `MarkDone` deletes
  the one reminder with the given id. `Show` is the listing loop. The pure
  functions beside it (`WithIds`, `DueNow`, `SortByDueDesc`, `Matching`) are
  the specifications those methods are proved against.

The current time and today's date are parameters. The model follows what the
code does, including where that departs from how the tool is meant to behave:
- `parse_time_str` does not special-case 12. So `12am` is hour 12, and `12pm` is
  hour 24, which the `datetime` constructor rejects (`ParseTimeTwelve`). It
  does not give 0 and 12.
- The roll to next year sits outside the `MM/DD` branch. So it also applies to
  a `+N` offset that lands before today, i.e. a negative N (`BackwardOffset`).
- `mark_done` looks the id up among the ids assigned when the list was loaded.
  It does not renumber first. `Store.Valid()` records that those ids are the
  ones `add_ids` gives at the load time, and from it `MarkDone` proves that the
  `assert len(matching) == 1` of the source always holds.

## Model

| member | source | states |
|---|---|---|
| Calendar.NextDayOrdinal | rd.py:198 | the day after any date but 9999-12-31 is a valid date one ordinal later |
| Calendar.PrevDayOrdinal | rd.py:209 | the day before any date but 0001-01-01 is a valid date one ordinal earlier |
| Calendar.OrdinalOrder | rd.py:205 | date comparison `<` holds exactly when the day ordinals compare so; equal dates are those with equal ordinals |
| Calendar.OrdinalRange | rd.py:195 | every valid date has an ordinal between that of 0001-01-01 (1) and that of 9999-12-31 |
| Calendar.AddDays | rd.py:198 | `d + timedelta(days=n)` succeeds exactly when the ordinal stays in range, and the result is the valid date whose ordinal is n more |
| Calendar.ReplaceYear | rd.py:215 | `replace(year=y)` fails exactly for a year outside 1..9999 or for 29 February moved into a common year; otherwise only the year changes |
| Text.Split | rd.py:187 | `split('@')` gives one more part than there are `@`s, and no part contains `@` |
| Text.JoinSplit | rd.py:187 | re-joining the parts of `split` with the separator gives the original string |
| Text.SplitWithoutSeparator | rd.py:193 | a string without `@` splits into itself alone |
| Text.SplitAtSeparator | rd.py:187-193 | `day@time`, with no other `@`, splits into exactly the day part and the time part |
| Text.ParseInt | rd.py:170-174 | no contract of its own: `ParseIntDecimal` states that it reads back every decimal numeral |
| Text.ParseIntDecimal | rd.py:170-174 | `int(str(n)) == n` for every integer n |
| DueParser.Instant | rd.py:220-222 | no contract of its own: `InstantOrder` states the order it keeps |
| DueParser.InstantOrder | rd.py:220-222 | for whole-hour moments, instants compare as (date, hour) does, and equal instants are equal moments |
| DueParser.ParseTime | rd.py:160-174 | no contract of its own: `ParseTimeForms`, `ParseTimeExamples`, `ParseTimeTwelve` and `TwoPm` below state what it gives |
| DueParser.ParseTimeForms | rd.py:169-174 | `Nam` parses to N, `Npm` to N + 12 and a bare `N` to N, for every N |
| DueParser.ParseTimeExamples | rd.py:164-166 | the documented examples: 2am is 2, 5pm is 17, 15 is 15 |
| DueParser.ParseTimeTwelve | rd.py:169-172 | 12am parses to 12 and 12pm to 24 |
| DueParser.StrptimeMonthDay | rd.py:201 | a parsed `MM/DD` is a valid date of 1900, a common year, so 02/29 never parses; `MonthDayParses` gives the converse |
| DueParser.Two | rd.py:181 | n in 0..99 written as two decimal digits reads back as n |
| DueParser.MonthDayParses | rd.py:201 | every day of 1900 written `MM/DD` parses to exactly that month and day |
| DueParser.ChristmasParses | rd.py:180-181 | the documented day string `12/25` parses to 25 December |
| DueParser.ResolveDay | rd.py:197-202 | a resolved day is a valid date; `OffsetResolves` and `MonthDayResolves` state which day each form names |
| DueParser.ParseDay | rd.py:197-215 | a resolved day is a valid date never before today; `RollForward` and the `MonthDay…` and `…Offset` lemmas give it for each form |
| DueParser.RollForward | rd.py:204-215 | a day not before today is kept, with no note; a day before today becomes that month and day next year, resolving exactly when 30 days before today exists and the year can be replaced; the note is printed exactly when the day lies within the 30 days before today, and never when 30 days before today does not exist; a resolved day is never before today |
| DueParser.ParseDue | rd.py:176-222 | two or more `@` fail with no note; a parsed moment is a valid date not before today, with hour in 0..23 and minute and second 0; with no `@` the hour is 8 |
| DueParser.ParseDueWithTime | rd.py:187-220 | for `day@time` the note comes from the day part; the result is the resolved day at the parsed hour exactly when both parts parse and the hour is in 0..23 |
| DueParser.ParseDueWithoutTime | rd.py:193 | without `@` the result is the resolved day at 8:00 exactly when the day part resolves |
| DueParser.MonthDayResolves | rd.py:200-202 | a parsed `MM/DD` is a valid day of today's year in every year, and the day part is that day rolled forward |
| DueParser.MonthDayThisYear | rd.py:200-205 | `MM/DD` not before today is that day of today's year, with no note |
| DueParser.MonthDayNextYear | rd.py:200-215 | `MM/DD` before today is that day of next year; the note is printed exactly when the day this year lies within the last 30 days |
| DueParser.OffsetResolves | rd.py:197-198 | `+N` is `AddDays(today, N)` before any roll-over |
| DueParser.ForwardOffset | rd.py:197-205 | `+N` with N >= 0 is the day N ordinals after today, with no note and no roll-over |
| DueParser.BackwardOffset | rd.py:197-215 | `+N` landing before today is that day rolled forward, with the note and success `RollForward` gives; when it resolves, it is that month and day in next year |
| DueParser.PlusZero | rd.py:197-198 | `+0` is today, with no note |
| DueParser.TwoPm | rd.py:171-172 | `2pm` parses to hour 14 |
| DueParser.SameDayAfternoon | rd.py:176-222 | on every day, `+0@2pm` is 14:00:00 that day, with no note |
| Reminders.Records | rd.py:123-126 | no contract of its own: `RecordsOfLoaded`, `RecordsPermutation` and `WithIdsKeepsRecords` state what it keeps |
| Reminders.FromRecords | rd.py:107 | no contract of its own: `RecordsOfLoaded` states that it keeps every saved record |
| Reminders.RecordsOfLoaded | rd.py:123-126 | the records of a freshly loaded list are the saved records |
| Reminders.DueNow | rd.py:143-146 | the view is no longer than the list; `DueNowMember` and `DueNowIsSuffix` state which reminders it holds |
| Reminders.DueNowMember | rd.py:143-146 | the default view holds exactly the reminders with due <= now |
| Reminders.DueNowIsSuffix | rd.py:136-138 | in a list sorted most recently due first, the reminders due now are its last K entries |
| Reminders.WithIds | rd.py:78-94 | no contract of its own: `WithIdsKeepsRecords`, `WithIdsAt`, `IdsIncrease`, `IdsRange`, `ShownIdsDense` and `WithIdsIdempotent` state what it gives |
| Reminders.WithIdsKeepsRecords | rd.py:84-94 | numbering keeps the length, the order and every text and due time; only ids change |
| Reminders.WithIdsNext | rd.py:86-92 | numbering one more reminder appends it with id (due reminders before it) + 1 when due and no id otherwise, and the count of due reminders grows by one exactly when it is due |
| Reminders.WithIdsAt | rd.py:86-92 | the i-th reminder gets id = (due reminders before it) + 1 when it is due, and no id (a stale one removed) otherwise |
| Reminders.IdsIncrease | rd.py:89-92 | ids strictly increase along the list, so no two reminders share one |
| Reminders.IdsRange | rd.py:87-92 | a reminder has an id exactly when due <= now, and the id lies in 1..K |
| Reminders.ShownIdsDense | rd.py:143-147 | the due-now view of a numbered list carries the ids 1..K in order with no gap |
| Reminders.WithIdsIdempotent | rd.py:78-94 | numbering again at the same time changes nothing |
| Reminders.Matching | rd.py:251 | the matching indices are exactly the positions whose id is the requested one |
| Reminders.MatchingNumbered | rd.py:251-257 | on a numbered list an id in 1..K matches exactly one reminder and any other id none |
| Reminders.MatchedIsKth | rd.py:251-259 | the reminder matching id k is due and has k - 1 due reminders before it |
| Reminders.InsertPermutes | rd.py:235 | inserting adds exactly the new reminder (a permutation) |
| Reminders.InsertSorted | rd.py:235 | inserting into a list sorted most recently due first keeps it sorted |
| Reminders.InsertStable | rd.py:235 | inserting keeps each group of equal-due reminders in order, the new one last in its group |
| Reminders.SortByDueDesc | rd.py:235 | the sort gives a list sorted by due descending, a permutation, with equal-due reminders in their original order |
| Reminders.SortedStableUnique | rd.py:235 | two lists sorted by due descending with the same equal-due groups in the same order are equal |
| Reminders.StableSortIsSortByDueDesc | rd.py:235 | any stable descending sort of a list is `SortByDueDesc` of it |
| Reminders.SortSorted | rd.py:235 | sorting an already sorted list leaves it unchanged |
| Reminders.RemoveKeepsSorted | rd.py:261 | deleting one entry keeps a list sorted |
| Reminders.WithIdsKeepsSorted | rd.py:120 | numbering keeps a list sorted |
| Reminders.RecordsPermutation | rd.py:233-235 | reordering reminders reorders their records alike |
| Reminders.AddedAndSorted | rd.py:233-236 | append, sort and renumber gives a sorted list whose records are the old ones plus the new one |
| Scheduler.Store.Load | rd.py:103-112 | the loaded list has exactly the saved records, numbered as of now |
| Scheduler.Store.AddIds | rd.py:78-94 | the loop leaves the list equal to `WithIds` of the old list at now, and the ids consistent |
| Scheduler.Store.Save | rd.py:116-130 | the list is renumbered as of now, and the file then holds exactly the (text, due) records of the list, in order |
| Scheduler.Store.Add | rd.py:224-236 | on a parse failure nothing changes; otherwise the list is the stable descending sort of the old list plus the new reminder, renumbered, and saved; its records are the old ones plus the new one |
| Scheduler.Store.MarkDone | rd.py:241-262 | an id outside 1..K changes nothing; otherwise exactly one reminder matches, the k-th due one, and the list becomes the old one without it, others in order, renumbered and saved |
| Scheduler.AddCallBob | rd.py:224-236 | on the morning of 2024-03-01, `rd add +0@2pm Call Bob` on an empty save file saves exactly the record ("Call Bob", 2pm that day) |
| Scheduler.ListCallBob | rd.py:132-158 | at 3pm that day, `rd` lists that reminder alone, as number 1 |
| Scheduler.DoneCallBob | rd.py:241-266 | then `rd done 1` removes it, and the reloaded list has nothing to show |
| Scheduler.Store.Show | rd.py:132-158 | shows every reminder with `show_all`, else exactly those due now in list order; "nothing shown" exactly when that is empty; numbered as of now, the shown ids are 1..K |

## Left out

- Reading and writing `~/.rd` as JSON, `os.path.expanduser` and the file-exists test (rd.py:103-112, 128-130): these are I/O. `Store.disk` stands for the file's content. A missing file is loading the empty list.
- The process-wide cache `_reminders`: a `Store` object stands for it, for one run of `rd`.
- `print`, `dbg_print` and the `strftime` formatting of the listing and of the confirmation lines: this is console output. The "next year" note is a flag in `Parsed`. The debug-only note has no flag, since it prints only in debug mode.
- `sys.argv` dispatch, `print_help_and_exit` and exit codes (rd.py:268-291): this is command-line plumbing. So is the `int()` of the `done` argument (rd.py:245-249); `MarkDone` takes an integer.
- The listing that `mark_done` prints after deleting (rd.py:264-266): a caller can call `Show`.
- `time.time()` and `date.today()`: they are the parameters `now` and `today`. `time.mktime`, local time and daylight saving time are left out. An instant counts seconds over days of exactly 24 hours, and due times and `now` are integers, not floats.
- Python reminder dicts and their identity: a reminder is a value in a sequence, so aliasing between lists is not modelled. The ids are the only field the code changes in place, and `AddIds` does change them in place in `items`.
- Text.ParseInt: strips only the ASCII white space characters. It also does not accept `_` between digits or non-ASCII decimal digits, which Python's `int()` does.
- DueParser.DayField: does not accept non-ASCII decimal digits, which the `\d` of `strptime`'s pattern matches.
