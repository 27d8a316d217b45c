/**
 * The `Schedule` class of scheduleLib/__init__.py: one week's worth of timed
 * events kept as three parallel lists (timestamps, descriptors, ids), the
 * cursor `prevTimestamp` that `tick` advances, and the `jsonTimings` snapshot
 * used by export and import. The clock, the random draws and the regular
 * expression engine are inputs of the methods that use them.
 */
module ScheduleLib {
  import opened Wrappers
  import opened DescriptorCodec
  import opened WeeklyTime
  import opened EventTable

  /** The exceptions the source raises. */
  datatype ScheduleError =
    | ModeNotAllowed(mode: string)  // ValueError raised by add
    | IdNotFound(id: int)           // ValueError raised by list.index in remove
    | NotJson                       // json.loads rejects jsonTimings in importTimings
    | TooFewArrays(count: nat)      // IndexError in importTimings after `count` lists were assigned

  /**
   * What `json.loads` makes of `jsonTimings`. `Unparsable` is any text that is
   * not JSON, such as the empty string a schedule starts with. `Arrays` is a JSON
   * array of `count` arrays whose first three are the given lists; when `count`
   * is below three, only the first `count` of them are meaningful.
   */
  datatype Timings =
    | Unparsable
    | Arrays(count: nat, timestamps: seq<int>, descriptors: seq<string>, ids: seq<int>)

  /** bell, local, Spotify, radio, youtube, mic */
  const DefaultModes: seq<string> := ["b", "l", "s", "r", "y", "m"]

  class Schedule {
    var timestamps: seq<int>
    var descriptors: seq<string>
    var ids: seq<int>
    var jsonTimings: Timings
    const allowedModes: seq<string>
    var prevTimestamp: int

    /** The three lists stay positionally aligned. */
    ghost predicate Valid()
      reads this
    {
      Aligned(timestamps, descriptors, ids)
    }

    /** The lookup by ID applies: the selector is truthy and names an ID in use. */
    predicate SelectsById(eventId: Option<int>)
      reads this
    {
      GivenInt(eventId) && eventId.value in ids
    }

    /** The lookup by timestamp applies: the selector is truthy and some event has that timestamp. */
    predicate SelectsByTimestamp(eventTimestamp: Option<int>)
      reads this
    {
      GivenInt(eventTimestamp) && eventTimestamp.value in timestamps
    }

    /** An empty schedule whose cursor is the moment of creation, `now`. */
    constructor (allowedModes: seq<string>, now: ClockReading)
      ensures this.allowedModes == allowedModes
      ensures timestamps == [] && descriptors == [] && ids == []
      ensures jsonTimings == Unparsable
      ensures prevTimestamp == Timestamp(now)
      ensures Valid()
    {
      this.allowedModes := allowedModes;
      timestamps, descriptors, ids := [], [], [];
      jsonTimings := Unparsable;
      prevTimestamp := Timestamp(now);
    }

    /**
     * Reports, in table order, the events whose timestamp lies in
     * (prevTimestamp, now], then moves the cursor to `now`.
     */
    method Tick(now: ClockReading) returns (due: seq<Entry>)
      requires Valid()
      modifies this`prevTimestamp
      ensures due == DueEntries(old(prevTimestamp), Timestamp(now), timestamps, descriptors, ids)
      ensures prevTimestamp == Timestamp(now)
    {
      var current := Timestamp(now);
      var prev, ts, ds, idList := prevTimestamp, timestamps, descriptors, ids;
      due := [];
      var i := 0;
      while i < |ts|
        invariant i <= |ts|
        invariant due == Entries(ts, ds, idList, DuePositions(prev, current, ts, i))
      {
        DueEntriesStep(prev, current, ts, ds, idList, i);
        if ts[i] > prev && ts[i] <= current {
          due := due + [EntryAt(ts, ds, idList, i)];
        }
        i := i + 1;
      }
      prevTimestamp := current;
    }

    /**
     * Adds an event and returns its new ID. `draws` are the values
     * `randint(10000, 99999)` returns, in order; at most 101 are taken.
     */
    method Add(timestamp: int, mode: string, params: string, sampleName: string, draws: seq<int>)
      returns (result: Result<int, ScheduleError>)
      requires MaxDraws < |draws|
      requires forall k :: 0 <= k < |draws| ==> LowestRandomId <= draws[k] <= HighestRandomId
      modifies this`timestamps, this`descriptors, this`ids
      ensures mode !in allowedModes ==>
        && result == Failure(ModeNotAllowed(mode))
        && timestamps == old(timestamps) && descriptors == old(descriptors) && ids == old(ids)
      ensures mode in allowedModes ==>
        && result == Success(AllocatedId(old(ids), draws))
        && timestamps == old(timestamps) + [timestamp]
        && descriptors == old(descriptors) + [Descriptor(mode, params, sampleName)]
        && ids == old(ids) + [result.value]
      ensures result.Success? ==>
        && result.value !in old(ids)
        && (LowestRandomId <= result.value <= HighestRandomId || result.value == SmallestUnused(old(ids)))
      ensures old(Valid()) ==> Valid()
      ensures Distinct(old(ids)) ==> Distinct(ids)
    {
      if mode !in allowedModes {
        return Failure(ModeNotAllowed(mode));
      }
      var encodedParams := Encode(params);
      var encodedName := Encode(sampleName);
      timestamps := timestamps + [timestamp];
      descriptors := descriptors + [mode + ":" + encodedParams + ":" + encodedName];

      var inUse := ids;
      var n := 1;
      var newId := draws[0];
      while newId in inUse
        modifies {}
        invariant 1 <= n <= MaxDraws
        invariant newId == draws[n - 1]
        invariant forall k :: 0 <= k < n - 1 ==> draws[k] in inUse
        decreases MaxDraws - n
      {
        newId := draws[n];
        n := n + 1;
        if n > MaxDraws {
          assert forall k :: 0 <= k < MaxDraws ==> draws[k] in inUse;
          var i := 0;
          while i in inUse
            invariant forall j :: 0 <= j < i ==> j in inUse
            decreases set x | x in inUse && x >= i
          {
            IdsFromShrink(inUse, i);
            i := i + 1;
          }
          newId := i;
          break;
        }
      }
      assert newId == AllocatedId(inUse, draws);
      AllocatedIdRange(inUse, draws);
      ids := ids + [newId];
      return Success(newId);
    }

    /** Removes the event with ID `id` from all three lists. */
    method Remove(id: int) returns (result: Outcome<ScheduleError>)
      requires Valid()
      modifies this`timestamps, this`descriptors, this`ids
      ensures id !in old(ids) ==>
        && result == Fail(IdNotFound(id))
        && timestamps == old(timestamps) && descriptors == old(descriptors) && ids == old(ids)
      ensures id in old(ids) ==>
        var k := IndexOf(old(ids), id);
        && result == Pass
        && timestamps == RemoveAt(old(timestamps), k)
        && descriptors == RemoveAt(old(descriptors), k)
        && ids == RemoveAt(old(ids), k)
      ensures Valid()
      ensures Distinct(old(ids)) ==> Distinct(ids) && id !in ids
    {
      if id !in ids {
        return Fail(IdNotFound(id));
      }
      var k := IndexOf(ids, id);
      ghost var distinct := Distinct(ids);
      if distinct {
        RemoveKeepsIdsDistinct(ids, id);
      }
      timestamps := RemoveAt(timestamps, k);
      descriptors := RemoveAt(descriptors, k);
      ids := RemoveAt(ids, k);
      return Pass;
    }

    /**
     * Looks events up by the first selector that applies: the ID, then the
     * timestamp (each only when truthy, so 0 counts as absent), then the
     * pattern, where `search(pattern, descriptor)` stands for `re.search`.
     * `None` when no selector applies.
     */
    method GetEvent(eventId: Option<int>, eventTimestamp: Option<int>, regex: Option<string>,
                    search: (string, string) -> bool)
      returns (found: Option<seq<Entry>>)
      requires Valid()
      ensures SelectsById(eventId) ==>
        found == Some([EntryAt(timestamps, descriptors, ids, IndexOf(ids, eventId.value))])
      ensures !SelectsById(eventId) && SelectsByTimestamp(eventTimestamp) ==>
        found == Some([EntryAt(timestamps, descriptors, ids, IndexOf(timestamps, eventTimestamp.value))])
      ensures !SelectsById(eventId) && !SelectsByTimestamp(eventTimestamp) && GivenPattern(regex) ==>
        found == Some(Entries(timestamps, descriptors, ids,
                              MatchingPositions(descriptors, regex.value, search, |descriptors|)))
      ensures !SelectsById(eventId) && !SelectsByTimestamp(eventTimestamp) && !GivenPattern(regex) ==>
        found == None
    {
      if GivenInt(eventId) && eventId.value in ids {
        var n := IndexOf(ids, eventId.value);
        return Some([EntryAt(timestamps, descriptors, ids, n)]);
      } else if GivenInt(eventTimestamp) && eventTimestamp.value in timestamps {
        var n := IndexOf(timestamps, eventTimestamp.value);
        return Some([EntryAt(timestamps, descriptors, ids, n)]);
      } else if GivenPattern(regex) {
        var pattern, ts, ds, idList := regex.value, timestamps, descriptors, ids;
        var r := [];
        var n := 0;
        while n < |ts|
          invariant n <= |ts|
          invariant r == Entries(ts, ds, idList, MatchingPositions(ds, pattern, search, n))
        {
          MatchingEntriesStep(ts, ds, idList, pattern, search, n);
          if search(pattern, ds[n]) {
            r := r + [EntryAt(ts, ds, idList, n)];
          }
          n := n + 1;
        }
        return Some(r);
      } else {
        return None;
      }
    }

    /** Stores a snapshot of the three lists in `jsonTimings`; returns the schedule itself. */
    method ExportTimings() returns (self: Schedule)
      modifies this`jsonTimings
      ensures jsonTimings == Arrays(3, timestamps, descriptors, ids)
      ensures self == this
    {
      jsonTimings := Arrays(3, timestamps, descriptors, ids);
      return this;
    }

    /**
     * Replaces the three lists, one after the other, by those of `jsonTimings`,
     * with no check of their shape: a document with fewer than three arrays
     * fails after assigning the ones it has.
     */
    method ImportTimings() returns (result: Outcome<ScheduleError>)
      modifies this`timestamps, this`descriptors, this`ids
      ensures jsonTimings.Unparsable? ==>
        && result == Fail(NotJson)
        && timestamps == old(timestamps) && descriptors == old(descriptors) && ids == old(ids)
      ensures jsonTimings.Arrays? ==>
        && timestamps == (if jsonTimings.count >= 1 then jsonTimings.timestamps else old(timestamps))
        && descriptors == (if jsonTimings.count >= 2 then jsonTimings.descriptors else old(descriptors))
        && ids == (if jsonTimings.count >= 3 then jsonTimings.ids else old(ids))
        && result == (if jsonTimings.count >= 3 then Pass else Fail(TooFewArrays(jsonTimings.count)))
    {
      match jsonTimings
      case Unparsable =>
        return Fail(NotJson);
      case Arrays(count, ts, ds, idList) =>
        if count < 1 {
          return Fail(TooFewArrays(count));
        }
        timestamps := ts;
        if count < 2 {
          return Fail(TooFewArrays(count));
        }
        descriptors := ds;
        if count < 3 {
          return Fail(TooFewArrays(count));
        }
        ids := idList;
        return Pass;
    }
  }

  /**
   * A schedule created on Monday at 00:00:00 with a bell added for 01:00:00
   * reports exactly that bell, with its fields as given, at the tick of 01:00:01.
   */
  method BellScenario(start: ClockReading, later: ClockReading, draws: seq<int>) returns (id: int, due: seq<Entry>)
    requires Timestamp(start) == 0 && Timestamp(later) == 3601
    requires MaxDraws < |draws|
    requires forall k :: 0 <= k < |draws| ==> LowestRandomId <= draws[k] <= HighestRandomId
    ensures 0 <= id <= HighestRandomId
    ensures due == [Entry(3600, ["b", "l3", "bell1"], id)]
  {
    var schedule := new Schedule(DefaultModes, start);
    assert "b" in DefaultModes;
    var added := schedule.Add(3600, "b", "l3", "bell1", draws);
    assert added.Success?;
    id := added.value;
    assert SmallestUnused([]) == 0;
    ghost var d := Descriptor("b", "l3", "bell1");
    assert schedule.timestamps == [3600] && schedule.descriptors == [d] && schedule.ids == [id];
    assert schedule.prevTimestamp == 0;
    due := schedule.Tick(later);
    assert due == DueEntries(0, 3601, [3600], [d], [id]);
    BellIsDue(id);
  }

  lemma BellIsDue(id: int)
    ensures DueEntries(0, 3601, [3600], [Descriptor("b", "l3", "bell1")], [id])
            == [Entry(3600, ["b", "l3", "bell1"], id)]
  {
    assert DuePositions(0, 3601, [3600], 1) == [0] by {
      assert DuePositions(0, 3601, [3600], 0) == [];
    }
    assert NoEscapedColon("l3") && NoEscapedColon("bell1");
    DescriptorRoundTrip("b", "l3", "bell1");
  }

  /**
   * Looking up the ID `add` returned finds the added event with its fields as
   * given, unless that ID is 0, which the falsy test treats as no selector.
   */
  method AddThenGetEvent(schedule: Schedule, timestamp: int, mode: string, params: string, sampleName: string,
                         draws: seq<int>, search: (string, string) -> bool)
    returns (id: int, found: Option<seq<Entry>>)
    requires schedule.Valid()
    requires mode in schedule.allowedModes && ':' !in mode && '\\' !in mode
    requires NoEscapedColon(params) && NoEscapedColon(sampleName)
    requires MaxDraws < |draws|
    requires forall k :: 0 <= k < |draws| ==> LowestRandomId <= draws[k] <= HighestRandomId
    modifies schedule
    ensures id != 0 ==> found == Some([Entry(timestamp, [mode, params, sampleName], id)])
    ensures id == 0 ==> found == None
  {
    ghost var ts, ds, ids := schedule.timestamps, schedule.descriptors, schedule.ids;
    var added := schedule.Add(timestamp, mode, params, sampleName, draws);
    id := added.value;
    AddedEventIsFound(ts, ds, ids, timestamp, mode, params, sampleName, id);
    found := schedule.GetEvent(Some(id), None, None, search);
  }

  /** After removing an ID, looking it up (with no other selector) finds nothing. */
  method RemoveThenGetEvent(schedule: Schedule, id: int, search: (string, string) -> bool)
    returns (found: Option<seq<Entry>>)
    requires schedule.Valid() && Distinct(schedule.ids)
    modifies schedule
    ensures found == None
  {
    var _ := schedule.Remove(id);
    found := schedule.GetEvent(Some(id), None, None, search);
  }

  /**
   * Exporting a schedule and importing the snapshot into a new one reproduces
   * the three lists the schedule held before the export, which leaves them as they were.
   */
  method ExportImportRoundTrip(schedule: Schedule, now: ClockReading) returns (copy: Schedule)
    modifies schedule`jsonTimings
    ensures fresh(copy)
    ensures copy.timestamps == old(schedule.timestamps)
    ensures copy.descriptors == old(schedule.descriptors)
    ensures copy.ids == old(schedule.ids)
  {
    var _ := schedule.ExportTimings();
    copy := new Schedule(schedule.allowedModes, now);
    copy.jsonTimings := schedule.jsonTimings;
    var result := copy.ImportTimings();
    assert result == Pass;
  }
}
