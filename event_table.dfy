/**
 * The event table of scheduleLib/__init__.py as values: the three parallel lists
 * (timestamps, descriptors, ids), the descriptor layout, the ID allocation
 * strategy, the due-event window of `tick` and the selectors of `getEvent`.
 * The `Schedule` class is proved against these definitions.
 */
module EventTable {
  import opened Wrappers
  import opened DescriptorCodec

  // ----- descriptors -----

  /** The descriptor `add` stores: `mode:params:sampleName` with both free-form parts escaped. */
  function Descriptor(mode: string, params: string, sampleName: string): string
  {
    mode + ":" + Encode(params) + ":" + Encode(sampleName)
  }

  /** What `tick` and `getEvent` report for a descriptor: each `:`-separated field, decoded. */
  function DecodeFields(descriptor: string): seq<string>
  {
    var parts := Split(descriptor, ':');
    seq(|parts|, k requires 0 <= k < |parts| => Decode(parts[k]))
  }

  /**
   * A descriptor built from a colon-free mode splits into exactly its three
   * parts, and decoding restores the free-form parts up to `\?` turning into `\:`.
   */
  lemma DescriptorFields(mode: string, params: string, sampleName: string)
    requires ':' !in mode
    ensures Split(Descriptor(mode, params, sampleName), ':') == [mode, Encode(params), Encode(sampleName)]
    ensures DecodeFields(Descriptor(mode, params, sampleName))
            == [Decode(mode), Replace(params, "\\?", "\\:"), Replace(sampleName, "\\?", "\\:")]
  {
    var fields := [mode, Encode(params), Encode(sampleName)];
    assert Join(fields, ':') == Descriptor(mode, params, sampleName) by {
      assert fields[1..][1..] == [Encode(sampleName)];
      assert Join(fields[1..], ':') == Encode(params) + [':'] + Encode(sampleName);
      assert Join(fields, ':') == mode + [':'] + (Encode(params) + [':'] + Encode(sampleName));
    }
    SplitJoin(fields, ':');
    DecodeAfterEncode(params);
    DecodeAfterEncode(sampleName);
  }

  /** For a plain mode and parts without `\?`, the reported fields are exactly what was added. */
  lemma DescriptorRoundTrip(mode: string, params: string, sampleName: string)
    requires ':' !in mode && '\\' !in mode
    requires NoEscapedColon(params) && NoEscapedColon(sampleName)
    ensures DecodeFields(Descriptor(mode, params, sampleName)) == [mode, params, sampleName]
  {
    DescriptorFields(mode, params, sampleName);
    DecodePlain(mode);
    ReplaceEscapedColonAbsent(params, "\\:");
    ReplaceEscapedColonAbsent(sampleName, "\\:");
  }

  // ----- entries -----

  /** One reported event: `(eventTimestamp, [mode, params, sampleName], eventID)`. */
  datatype Entry = Entry(timestamp: int, fields: seq<string>, id: int)

  predicate Aligned(ts: seq<int>, ds: seq<string>, ids: seq<int>)
  {
    |ts| == |ds| == |ids|
  }

  /** The entry reported for position `j` of the table. */
  function EntryAt(ts: seq<int>, ds: seq<string>, ids: seq<int>, j: nat): Entry
    requires Aligned(ts, ds, ids) && j < |ts|
  {
    Entry(ts[j], DecodeFields(ds[j]), ids[j])
  }

  predicate InTable(ts: seq<int>, positions: seq<nat>)
  {
    forall k :: 0 <= k < |positions| ==> positions[k] < |ts|
  }

  /** The entries reported for the given positions, in the given order. */
  function Entries(ts: seq<int>, ds: seq<string>, ids: seq<int>, positions: seq<nat>): (r: seq<Entry>)
    requires Aligned(ts, ds, ids) && InTable(ts, positions)
    ensures |r| == |positions|
    ensures forall k :: 0 <= k < |r| ==> r[k] == EntryAt(ts, ds, ids, positions[k])
  {
    seq(|positions|, k requires 0 <= k < |positions| => EntryAt(ts, ds, ids, positions[k]))
  }

  /** Reporting one more position appends its entry. */
  lemma EntriesAppend(ts: seq<int>, ds: seq<string>, ids: seq<int>, positions: seq<nat>, j: nat)
    requires Aligned(ts, ds, ids) && InTable(ts, positions) && j < |ts|
    ensures Entries(ts, ds, ids, positions + [j]) == Entries(ts, ds, ids, positions) + [EntryAt(ts, ds, ids, j)]
  {
    var r := Entries(ts, ds, ids, positions + [j]);
    var r' := Entries(ts, ds, ids, positions) + [EntryAt(ts, ds, ids, j)];
    assert |r| == |r'|;
    forall k | 0 <= k < |r| ensures r[k] == r'[k] {
      assert (positions + [j])[k] == if k < |positions| then positions[k] else j;
    }
  }

  /** Positions listed in table order, each once. */
  predicate Increasing(positions: seq<nat>)
  {
    forall i, j :: 0 <= i < j < |positions| ==> positions[i] < positions[j]
  }

  /** A position listed in increasing order occurs at most once. */
  lemma {:induction false} OccurrencesInIncreasing(positions: seq<nat>, j: nat)
    requires Increasing(positions)
    ensures multiset(positions)[j] == if j in positions then 1 else 0
  {
    if positions != [] {
      var rest := positions[1..];
      assert positions == [positions[0]] + rest;
      assert Increasing(rest);
      OccurrencesInIncreasing(rest, j);
      assert positions[0] == j ==> j !in rest;
    }
  }

  // ----- tick -----

  /**
   * The positions among the first `k` whose timestamp lies in the half-open
   * window (prev, now], in table order.
   */
  function DuePositions(prev: int, now: int, ts: seq<int>, k: nat): (r: seq<nat>)
    requires k <= |ts|
    ensures forall i :: 0 <= i < |r| ==> r[i] < k
  {
    if k == 0 then []
    else
      var earlier := DuePositions(prev, now, ts, k - 1);
      if prev < ts[k - 1] <= now then earlier + [k - 1] else earlier
  }

  /** The due positions are listed in increasing table order, and are exactly those in the window. */
  lemma {:induction false} DuePositionsExact(prev: int, now: int, ts: seq<int>, k: nat)
    requires k <= |ts|
    ensures Increasing(DuePositions(prev, now, ts, k))
    ensures forall j: nat :: j in DuePositions(prev, now, ts, k) <==> j < k && prev < ts[j] <= now
  {
    if k > 0 {
      DuePositionsExact(prev, now, ts, k - 1);
    }
  }

  /** Examining position `k` appends its entry when it is due and nothing otherwise. */
  lemma DueEntriesStep(prev: int, now: int, ts: seq<int>, ds: seq<string>, ids: seq<int>, k: nat)
    requires Aligned(ts, ds, ids) && k < |ts|
    ensures prev < ts[k] <= now ==>
              Entries(ts, ds, ids, DuePositions(prev, now, ts, k + 1))
              == Entries(ts, ds, ids, DuePositions(prev, now, ts, k)) + [EntryAt(ts, ds, ids, k)]
    ensures !(prev < ts[k] <= now) ==>
              Entries(ts, ds, ids, DuePositions(prev, now, ts, k + 1))
              == Entries(ts, ds, ids, DuePositions(prev, now, ts, k))
  {
    if prev < ts[k] <= now {
      EntriesAppend(ts, ds, ids, DuePositions(prev, now, ts, k), k);
    }
  }

  /** The events `tick` reports when its cursor is `prev` and the clock reads `now`. */
  function DueEntries(prev: int, now: int, ts: seq<int>, ds: seq<string>, ids: seq<int>): seq<Entry>
    requires Aligned(ts, ds, ids)
  {
    Entries(ts, ds, ids, DuePositions(prev, now, ts, |ts|))
  }

  /** A clock that has not advanced past the cursor, or has wrapped to an earlier weekday, reports nothing. */
  lemma StalledClockReportsNothing(prev: int, now: int, ts: seq<int>, ds: seq<string>, ids: seq<int>)
    requires Aligned(ts, ds, ids) && now <= prev
    ensures DueEntries(prev, now, ts, ds, ids) == []
  {
    NothingDue(prev, now, ts, |ts|);
  }

  lemma {:induction false} NothingDue(prev: int, now: int, ts: seq<int>, k: nat)
    requires k <= |ts| && now <= prev
    ensures DuePositions(prev, now, ts, k) == []
  {
    if k > 0 {
      NothingDue(prev, now, ts, k - 1);
    }
  }

  /** The positions reported by a run of ticks at clock readings `nows`, the cursor starting at `prev`. */
  function TickRun(prev: int, nows: seq<int>, ts: seq<int>): seq<nat>
    decreases |nows|
  {
    if nows == [] then []
    else DuePositions(prev, nows[0], ts, |ts|) + TickRun(nows[0], nows[1..], ts)
  }

  predicate NonDecreasing(prev: int, nows: seq<int>)
  {
    && (nows != [] ==> prev <= nows[0])
    && forall i, j :: 0 <= i < j < |nows| ==> nows[i] <= nows[j]
  }

  /**
   * Over consecutive ticks with a clock that never goes back, an event is
   * reported exactly once if its timestamp lies between the first cursor
   * (exclusive) and the last reading (inclusive), and never otherwise.
   */
  lemma {:induction false} ReportedExactlyOnce(prev: int, nows: seq<int>, ts: seq<int>, j: nat)
    requires nows != [] && NonDecreasing(prev, nows) && j < |ts|
    ensures multiset(TickRun(prev, nows, ts))[j] == if prev < ts[j] <= nows[|nows| - 1] then 1 else 0
    decreases |nows|
  {
    var first := DuePositions(prev, nows[0], ts, |ts|);
    DuePositionsExact(prev, nows[0], ts, |ts|);
    OccurrencesInIncreasing(first, j);
    if |nows| == 1 {
      assert TickRun(nows[0], nows[1..], ts) == [];
    } else {
      var rest := nows[1..];
      assert NonDecreasing(nows[0], rest);
      ReportedExactlyOnce(nows[0], rest, ts, j);
      assert rest[|rest| - 1] == nows[|nows| - 1];
      assert nows[0] <= nows[|nows| - 1];
    }
  }

  // ----- getEvent -----

  /** Python truthiness of an optional integer selector: given, and not 0. */
  predicate GivenInt(selector: Option<int>)
  {
    selector.Some? && selector.value != 0
  }

  /** Python truthiness of an optional pattern: given, and not empty. */
  predicate GivenPattern(selector: Option<string>)
  {
    selector.Some? && selector.value != ""
  }

  /** The first position holding `x` (Python's `list.index`). */
  function IndexOf<T(==)>(s: seq<T>, x: T): (i: nat)
    requires x in s
    ensures i < |s| && s[i] == x
    ensures forall j :: 0 <= j < i ==> s[j] != x
  {
    if s[0] == x then 0 else 1 + IndexOf(s[1..], x)
  }

  /**
   * The positions among the first `k` whose descriptor `search(pattern, ·)`
   * accepts, in table order; `search` stands for `re.search`.
   */
  function MatchingPositions(ds: seq<string>, pattern: string, search: (string, string) -> bool, k: nat): (r: seq<nat>)
    requires k <= |ds|
    ensures Increasing(r) && forall i :: 0 <= i < |r| ==> r[i] < k
    ensures forall j: nat :: j in r <==> j < k && search(pattern, ds[j])
  {
    if k == 0 then []
    else
      var earlier := MatchingPositions(ds, pattern, search, k - 1);
      if search(pattern, ds[k - 1]) then earlier + [k - 1] else earlier
  }

  /** Scanning position `k` appends its entry exactly when the search accepts its descriptor. */
  lemma MatchingEntriesStep(ts: seq<int>, ds: seq<string>, ids: seq<int>,
                            pattern: string, search: (string, string) -> bool, k: nat)
    requires Aligned(ts, ds, ids) && k < |ts|
    ensures Entries(ts, ds, ids, MatchingPositions(ds, pattern, search, k + 1))
            == Entries(ts, ds, ids, MatchingPositions(ds, pattern, search, k))
               + (if search(pattern, ds[k]) then [EntryAt(ts, ds, ids, k)] else [])
  {
    var positions := MatchingPositions(ds, pattern, search, k);
    if search(pattern, ds[k]) {
      EntriesAppend(ts, ds, ids, positions, k);
    }
  }

  // ----- IDs -----

  const LowestRandomId := 10000
  const HighestRandomId := 99999

  /** How many random draws may be tested before the linear scan takes over. */
  const MaxDraws := 100

  predicate Distinct(ids: seq<int>)
  {
    forall i, j :: 0 <= i < j < |ids| ==> ids[i] != ids[j]
  }

  /** The smallest integer from `i` on that is not an ID in use. */
  function FirstUnusedFrom(ids: seq<int>, i: nat): (r: nat)
    ensures i <= r && r !in ids
    ensures forall j :: i <= j < r ==> j in ids
    decreases set x | x in ids && x >= i
  {
    if i in ids then
      IdsFromShrink(ids, i);
      FirstUnusedFrom(ids, i + 1)
    else i
  }

  /** The IDs in use from `i` on lose `i` when `i` is in use: the measure of `FirstUnusedFrom`. */
  lemma IdsFromShrink(ids: seq<int>, i: nat)
    requires i in ids
    ensures (set x | x in ids && x >= i + 1) < (set x | x in ids && x >= i)
  {
    var above, from := set x | x in ids && x >= i + 1, set x | x in ids && x >= i;
    assert above <= from;
    assert i in from && i !in above;
  }

  /** The smallest non-negative integer that is not an ID in use. */
  function SmallestUnused(ids: seq<int>): (r: nat)
    ensures r !in ids
    ensures forall j :: 0 <= j < r ==> j in ids
  {
    FirstUnusedFrom(ids, 0)
  }

  /** The index of the first of the draws `k`, `k + 1`, ... below `MaxDraws` not in use, or `MaxDraws`. */
  function FirstFreshDraw(ids: seq<int>, draws: seq<int>, k: nat): (j: nat)
    requires k <= MaxDraws <= |draws|
    ensures k <= j <= MaxDraws
    ensures j < MaxDraws ==> draws[j] !in ids
    ensures forall i :: k <= i < j ==> draws[i] in ids
    decreases MaxDraws - k
  {
    if k == MaxDraws || draws[k] !in ids then k else FirstFreshDraw(ids, draws, k + 1)
  }

  /**
   * The ID `add` allocates given the random draws it makes: the first of the
   * first `MaxDraws` draws not in use, or, when all of them collide, the
   * smallest unused non-negative integer.
   */
  function AllocatedId(ids: seq<int>, draws: seq<int>): (id: int)
    requires MaxDraws <= |draws|
    ensures id !in ids
    ensures || (exists j :: 0 <= j < MaxDraws && id == draws[j] && forall i :: 0 <= i < j ==> draws[i] in ids)
            || ((forall i :: 0 <= i < MaxDraws ==> draws[i] in ids) && id == SmallestUnused(ids))
  {
    var j := FirstFreshDraw(ids, draws, 0);
    if j < MaxDraws then draws[j] else SmallestUnused(ids)
  }

  /** With draws from `randint(10000, 99999)`, the ID is in that range unless the scan chose it. */
  lemma AllocatedIdRange(ids: seq<int>, draws: seq<int>)
    requires MaxDraws <= |draws|
    requires forall k :: 0 <= k < |draws| ==> LowestRandomId <= draws[k] <= HighestRandomId
    ensures var id := AllocatedId(ids, draws);
            (LowestRandomId <= id <= HighestRandomId) || id == SmallestUnused(ids)
  {
  }

  // ----- remove -----

  /** The list without position `k` (Python's `list.pop(k)`). */
  function RemoveAt<T>(s: seq<T>, k: nat): (r: seq<T>)
    requires k < |s|
    ensures |r| == |s| - 1
    ensures forall i :: 0 <= i < |r| ==> r[i] == if i < k then s[i] else s[i + 1]
    ensures multiset(r) + multiset{s[k]} == multiset(s)
  {
    assert s == s[..k] + [s[k]] + s[k + 1..];
    s[..k] + s[k + 1..]
  }

  /** Removing the position of an ID keeps the others distinct and drops that ID entirely. */
  lemma RemoveKeepsIdsDistinct(ids: seq<int>, id: int)
    requires Distinct(ids) && id in ids
    ensures var r := RemoveAt(ids, IndexOf(ids, id)); Distinct(r) && id !in r
  {
  }

  /** `add` followed by a lookup of the new ID finds the new entry, with the fields as given. */
  lemma AddedEventIsFound(ts: seq<int>, ds: seq<string>, ids: seq<int>,
                          timestamp: int, mode: string, params: string, sampleName: string, id: int)
    requires Aligned(ts, ds, ids) && id !in ids
    requires ':' !in mode && '\\' !in mode
    requires NoEscapedColon(params) && NoEscapedColon(sampleName)
    ensures var ts', ds', ids' := ts + [timestamp], ds + [Descriptor(mode, params, sampleName)], ids + [id];
            && IndexOf(ids', id) == |ids|
            && EntryAt(ts', ds', ids', |ids|) == Entry(timestamp, [mode, params, sampleName], id)
  {
    var ids' := ids + [id];
    assert ids'[|ids|] == id;
    DescriptorRoundTrip(mode, params, sampleName);
  }
}
