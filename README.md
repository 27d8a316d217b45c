# scheduleLib in Dafny

A model of the `Schedule` class of scheduleLib. The class is a store of events
that repeat every week. Each event has:

- a weekly timestamp;
- a descriptor string `mode:params:sampleName`;
- a unique event ID.

The three attributes live in three parallel lists. `tick` reports the events
that fell due since the previous tick. `add` allocates a fresh ID from random
draws. `remove` and `getEvent` find events by ID, timestamp or pattern.
`exportTimings`/`importTimings` copy the lists to and from a JSON snapshot.

The project has five modules:

- `Wrappers` (wrappers.dfy): `Option`, `Result` and `Outcome`. They carry the
  exceptions the source raises.
- `DescriptorCodec` (descriptor_codec.dfy): `str.replace` and `str.split`, and
  the escaping codec `encodeSafeEventDSC`/`decodeSafeEventDSC` built from them.
- `WeeklyTime` (weekly_time.dfy): the formula
  `weekday*100000 + hour*3600 + minute*60 + second` and its inverse.
- `EventTable` (event_table.dfy): pure specification functions over the three
  lists. They cover:
  - which events are due;
  - which descriptors match a pattern;
  - which ID `add` allocates;
  - what removing position k leaves.
- `ScheduleLib` (schedule.dfy): the class `Schedule`. It has the three lists,
  the `prevTimestamp` cursor and the `jsonTimings` snapshot as fields. Each
  method updates those fields in place and is proved against the
  `EventTable` functions. The module also holds client scenarios that chain
  several calls.

Inputs the source takes from its surroundings are parameters here:

- the UTC clock reading (`ClockReading`);
- the values `randint(10000, 99999)` returns (`draws`, in order);
- `re.search` (`search(pattern, descriptor)`).

### Behaviour of the code worth knowing

- **Descriptor round trip.** The decoder replaces `\?` before `\\`. So an
  encoded `\\?`, which is an escaped backslash followed by `?`, is read back as
  `\:`. `decode(encode(s)) == s` therefore holds exactly when `s` has no
  backslash directly followed by `?` (`DescriptorCodec.RoundTrip`). In general
  the round trip gives `s` with every `\?` turned into `\:`
  (`DescriptorCodec.DecodeAfterEncode`).
- **Timestamp range.** Weekly timestamps lie in [0, 686399]. The largest,
  6*100000 + 86399, is Sunday 23:59:59.
- **ID allocation.** The event ID is "randomly generated" only until the first
  100 draws have all collided with IDs in use. A 101st draw is then taken and
  thrown away, and the ID becomes the smallest unused non-negative integer,
  which can be 0.
- **Import.** It checks nothing. It assigns the lists one at a time, so a
  document with fewer than three arrays leaves the first ones assigned and
  then fails.

## Model

| member | source | states |
|---|---|---|
| DescriptorCodec.Replace | scheduleLib/__init__.py:24-34 | Python's `str.replace`: leftmost, non-overlapping replacement. It has no contract of its own; ReplaceRemovesChar (the replaced character is gone), ReplaceCharAppend (it distributes over concatenation) and ReplaceEscapedColonAbsent state its properties |
| DescriptorCodec.Decode | scheduleLib/__init__.py:31-36 | `decodeSafeEventDSC`: `\?` becomes `:`, then `\\` becomes `\`. It has no contract of its own; DecodeAfterEncode, RoundTrip and DecodePlain state what it yields |
| DescriptorCodec.Encode | scheduleLib/__init__.py:23-28 | an encoded text never contains `:`, so it can sit between the separators of a descriptor |
| DescriptorCodec.DecodeAfterEncode | scheduleLib/__init__.py:23-36 | decoding an encoded string gives the original with every backslash-question-mark pair turned into backslash-colon, for every string |
| DescriptorCodec.RoundTrip | scheduleLib/__init__.py:23-36 | decode(encode(s)) == s if and only if s has no backslash directly followed by `?` |
| DescriptorCodec.BackslashQuestionNotRestored | scheduleLib/__init__.py:31-36 | the two-character string backslash, `?` comes back from the round trip as backslash, `:` |
| DescriptorCodec.DecodePlain | scheduleLib/__init__.py:31-36 | decoding a text without backslashes leaves it unchanged |
| DescriptorCodec.Split | scheduleLib/__init__.py:51 | `str.split(':')` yields at least one field, no field contains the separator, and joining the fields with the separator gives back the input |
| DescriptorCodec.SplitJoin | scheduleLib/__init__.py:51 | splitting the join of separator-free fields gives back exactly those fields |
| WeeklyTime.Timestamp | scheduleLib/__init__.py:19-20 | the weekly timestamp of a valid clock reading lies in [0, 686399] |
| WeeklyTime.ClockOfTimestamp | scheduleLib/__init__.py:45-46 | the clock reading can be read back from its timestamp |
| WeeklyTime.TimestampInjective | scheduleLib/__init__.py:45-46 | two valid readings have equal timestamps if and only if they are the same reading |
| WeeklyTime.TimestampOrder | scheduleLib/__init__.py:45-50 | one timestamp is below another if and only if its reading is chronologically earlier in the week, so the comparisons in `tick` are chronological |
| EventTable.Descriptor | scheduleLib/__init__.py:71-75 | the stored descriptor `mode:params:sampleName` with both free-form parts encoded. It has no contract of its own; DescriptorFields and DescriptorRoundTrip state how it splits and decodes |
| EventTable.DecodeFields | scheduleLib/__init__.py:51 | what `tick` and `getEvent` report for a descriptor: its `:`-separated fields, each decoded. It has no contract of its own; DescriptorFields gives its value on a stored descriptor |
| EventTable.DescriptorFields | scheduleLib/__init__.py:71-75 | a descriptor whose mode has no `:` splits into exactly three fields: the mode and the two encoded texts; decoding them gives the decoded mode and the round-tripped params and sample name |
| EventTable.DescriptorRoundTrip | scheduleLib/__init__.py:71-75 | for a mode without `:` or backslash, and params and sample name without backslash-`?`, the decoded fields of the descriptor are exactly [mode, params, sampleName] |
| EventTable.DuePositions | scheduleLib/__init__.py:49-50 | the positions among the first k that the scan in `tick` selects; every listed position is below k. DuePositionsExact states which positions they are |
| EventTable.DueEntries | scheduleLib/__init__.py:48-51 | the reported tuples: the entry at each due position, in table order. It has no contract of its own; Schedule.Tick returns it, and StalledClockReportsNothing and BellIsDue state its value |
| EventTable.DuePositionsExact | scheduleLib/__init__.py:49-50 | positions are reported in increasing table order, and a position is reported if and only if its timestamp lies in (prev, now] |
| EventTable.StalledClockReportsNothing | scheduleLib/__init__.py:48-53 | when the clock has not moved past the cursor (including a week rollover), no event is due |
| EventTable.ReportedExactlyOnce | scheduleLib/__init__.py:39-54 | across a run of ticks with non-decreasing clock readings, an event is reported exactly once if its timestamp lies in (first cursor, last reading], and never otherwise |
| EventTable.GivenInt | scheduleLib/__init__.py:114-117 | Python truthiness of an ID or timestamp selector: passed and not 0. It has no contract of its own; Schedule.GetEvent's contract uses it to order the selectors |
| EventTable.GivenPattern | scheduleLib/__init__.py:120 | Python truthiness of a pattern: passed and not empty. It has no contract of its own; Schedule.GetEvent's contract uses it |
| EventTable.IndexOf | scheduleLib/__init__.py:99 | `list.index` returns the first position holding the value |
| EventTable.MatchingPositions | scheduleLib/__init__.py:122-124 | positions are reported in increasing order, and a position is reported if and only if the pattern search succeeds on its raw descriptor |
| EventTable.SmallestUnused | scheduleLib/__init__.py:84-87 | the fallback scan returns a value not in use, and every smaller non-negative value is in use |
| EventTable.FirstFreshDraw | scheduleLib/__init__.py:77-83 | the draw index the loop stops at is the first of the first 100 draws not in use, or 100 when they all collide |
| EventTable.AllocatedId | scheduleLib/__init__.py:77-90 | the allocated ID is not in use; it is either the first unused value among the first 100 draws, or, when all 100 collide, the smallest unused non-negative integer |
| EventTable.AllocatedIdRange | scheduleLib/__init__.py:77-90 | the allocated ID is in [10000, 99999] unless the fallback was taken, in which case it is the smallest unused integer |
| EventTable.RemoveAt | scheduleLib/__init__.py:100-102 | `list.pop(k)` shortens the list by one, keeps the order of the rest, and removes exactly the element at k from its multiset |
| EventTable.RemoveKeepsIdsDistinct | scheduleLib/__init__.py:99-102 | removing an ID from a list of distinct IDs keeps them distinct and leaves that ID absent |
| EventTable.AddedEventIsFound | scheduleLib/__init__.py:114-116 | after appending an event with a fresh ID, the lookup by that ID finds it with its fields as given |
| ScheduleLib.Schedule.constructor | scheduleLib/__init__.py:9-20 | a new schedule is empty, has the given modes and an empty snapshot, and its cursor is the timestamp of the creation time |
| ScheduleLib.Schedule.Tick | scheduleLib/__init__.py:39-54 | returns the entries due in (old cursor, now], in table order and with decoded fields, and moves the cursor to now |
| ScheduleLib.Schedule.Add | scheduleLib/__init__.py:57-92 | an unknown mode fails with nothing changed; otherwise it appends the timestamp, the encoded descriptor and the allocated ID, returns an ID that was not in use, and keeps the lists aligned and the IDs distinct |
| ScheduleLib.Schedule.Remove | scheduleLib/__init__.py:95-102 | an unknown ID fails with nothing changed; otherwise it removes the first position holding the ID from all three lists, keeps them aligned, and with distinct IDs leaves the ID absent |
| ScheduleLib.Schedule.GetEvent | scheduleLib/__init__.py:105-127 | applies the first selector that holds: a truthy ID in use (its first entry), a truthy timestamp in use (its first entry), a non-empty pattern (all matching entries in table order), otherwise None |
| ScheduleLib.Schedule.ExportTimings | scheduleLib/__init__.py:129-136 | the snapshot holds the three current lists, and the schedule itself is returned |
| ScheduleLib.Schedule.ImportTimings | scheduleLib/__init__.py:163-171 | text that is not JSON fails with nothing changed; otherwise the first min(count, 3) lists are replaced by those of the snapshot, and the import fails if fewer than three were present |
| ScheduleLib.BellScenario | scheduleLib/__init__.py:39-92 | a schedule created at Monday 00:00:00, with a bell added for 01:00:00, reports exactly that bell with its fields as given at the tick of 01:00:01 |
| ScheduleLib.BellIsDue | scheduleLib/__init__.py:49-51 | the single bell event is the one entry due between 0 and 3601 |
| ScheduleLib.AddThenGetEvent | scheduleLib/__init__.py:57-127 | on any aligned table, duplicate IDs included, looking up the ID `add` returned finds the added event with its fields as given, unless that ID is 0, which the truthiness test treats as no selector |
| ScheduleLib.RemoveThenGetEvent | scheduleLib/__init__.py:95-127 | after an ID is removed from a table of distinct IDs, looking it up finds nothing |
| ScheduleLib.ExportImportRoundTrip | scheduleLib/__init__.py:129-171 | exporting a schedule and importing its snapshot into a newly created schedule reproduces the three lists the schedule held before the call; only the exported snapshot of the schedule changes |

## Left out

- `saveToFile` and `readFromFile`: file-system I/O (choosing a file name, globbing for the newest file, reading and writing). The snapshot `jsonTimings` is the only interface the model keeps to them.
- The JSON text itself. `jsonTimings` is modelled by what `json.loads` makes of it: either not JSON, or a list of `count` arrays. A document that is valid JSON but not a list of lists, and elements of the wrong types, are not modelled.
- `datetime.now(timezone.utc)`: the clock reading is a parameter of the constructor and of `Tick`.
- `random.randint`: its successive results are the `draws` parameter of `Add`, which must provide at least 101 values in [10000, 99999].
- `re.search`: the pattern engine is the `search` parameter of `GetEvent`. Regular-expression syntax and its errors are not modelled.
- The mutable default argument `allowedEventModes` is shared among schedules in the source. Here the modes are a constructor parameter, and `DefaultModes` holds the default list.
- ScheduleLib.Schedule.Tick, ScheduleLib.Schedule.Remove, ScheduleLib.Schedule.GetEvent: they require the three lists to have equal lengths. After an import of ill-matched arrays, the source can raise `IndexError` partway through or return a partial result, and the model does not follow it there.
- ScheduleLib.Schedule.ExportTimings: "returns self" is stated as the result being the receiver. Chained calls are not modelled further.
