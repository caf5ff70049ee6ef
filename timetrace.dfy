/**
 * Sequences of calls made on one timer. `Replay` gives the table after the
 * calls, `Measurements` what the stops among them return, in order.
 */
module TimeTrace {
  import opened Wrappers
  import opened TimeTable

  datatype Call = Start(name: string, clock: int) | Stop(name: string, clock: int)

  /** The table after one call: a start records, a stop only reads. */
  function Step(table: Table, c: Call): Table
  {
    match c
    case Start(name, now) => Started(table, name, now)
    case Stop(_, _) => table
  }

  function Replay(table: Table, calls: seq<Call>): Table
    decreases |calls|
  {
    if calls == [] then table else Replay(Step(table, calls[0]), calls[1..])
  }

  function StopCount(calls: seq<Call>): nat
  {
    if calls == [] then 0 else (if calls[0].Stop? then 1 else 0) + StopCount(calls[1..])
  }

  function StartCount(calls: seq<Call>): nat
  {
    if calls == [] then 0 else (if calls[0].Start? then 1 else 0) + StartCount(calls[1..])
  }

  /** The values returned by the stops among `calls`, one per stop. */
  function Measurements(table: Table, calls: seq<Call>): (ms: seq<Option<int>>)
    ensures |ms| == StopCount(calls)
    decreases |calls|
  {
    if calls == [] then []
    else
      var here := match calls[0]
        case Start(_, _) => []
        case Stop(name, now) => [Elapsed(table, name, now)];
      here + Measurements(Step(table, calls[0]), calls[1..])
  }

  /** Every label started somewhere in `calls`. */
  function StartedLabels(calls: seq<Call>): set<string>
  {
    if calls == [] then {}
    else (if calls[0].Start? then {calls[0].name} else {}) + StartedLabels(calls[1..])
  }

  /** The clock reading of the last start of `name` in `calls`, if any. */
  function LastStart(calls: seq<Call>, name: string): Option<int>
  {
    if calls == [] then None
    else match LastStart(calls[1..], name)
      case Some(t) => Some(t)
      case None => if calls[0].Start? && calls[0].name == name then Some(calls[0].clock) else None
  }

  function WithoutStops(calls: seq<Call>): seq<Call>
  {
    if calls == [] then []
    else (if calls[0].Start? then [calls[0]] else []) + WithoutStops(calls[1..])
  }

  /** Clock readings never go backwards, starting from `from`. */
  predicate Ascending(calls: seq<Call>, from: int)
  {
    calls == [] || (from <= calls[0].clock && Ascending(calls[1..], calls[0].clock))
  }

  /** The labels of the table after the calls are those it had plus the
      started ones; stops add and remove nothing. */
  lemma {:induction false} ReplayKeys(table: Table, calls: seq<Call>)
    ensures Replay(table, calls).Keys == table.Keys + StartedLabels(calls)
    decreases |calls|
  {
    if calls != [] {
      ReplayKeys(Step(table, calls[0]), calls[1..]);
    }
  }

  /** The key set grows by at most one label per start. */
  lemma {:induction false} ReplayKeyGrowth(table: Table, calls: seq<Call>)
    ensures |Replay(table, calls).Keys| <= |table.Keys| + StartCount(calls)
    decreases |calls|
  {
    if calls != [] {
      var next := Step(table, calls[0]);
      ReplayKeyGrowth(next, calls[1..]);
      match calls[0]
      case Start(name, now) => StartKeyGrowth(table, name, now);
      case Stop(_, _) =>
    }
  }

  /** After the calls, a label holds the reading of its last start, or
      what it held before when the calls never start it. */
  lemma {:induction false} ReplayLookup(table: Table, calls: seq<Call>, name: string)
    ensures LastStart(calls, name).Some? ==>
      name in Replay(table, calls) && Replay(table, calls)[name] == LastStart(calls, name).value
    ensures LastStart(calls, name).None? ==>
      (name in Replay(table, calls) <==> name in table) &&
      (name in table ==> Replay(table, calls)[name] == table[name])
    decreases |calls|
  {
    if calls != [] {
      ReplayLookup(Step(table, calls[0]), calls[1..], name);
    }
  }

  /** Removing every stop from the calls leaves the final table unchanged. */
  lemma {:induction false} StopsDoNotChangeTable(table: Table, calls: seq<Call>)
    ensures Replay(table, calls) == Replay(table, WithoutStops(calls))
    decreases |calls|
  {
    if calls != [] {
      var rest := calls[1..];
      StopsDoNotChangeTable(Step(table, calls[0]), rest);
      if calls[0].Start? {
        assert WithoutStops(calls) == [calls[0]] + WithoutStops(rest);
        assert ([calls[0]] + WithoutStops(rest))[1..] == WithoutStops(rest);
      } else {
        assert WithoutStops(calls) == WithoutStops(rest);
      }
    }
  }

  /** The results of two sequences of calls run one after the other are
      those of the first followed by those of the second, run on the table
      the first leaves behind. */
  lemma {:induction false} MeasurementsConcat(table: Table, a: seq<Call>, b: seq<Call>)
    ensures Measurements(table, a + b) == Measurements(table, a) + Measurements(Replay(table, a), b)
    decreases |a|
  {
    if a == [] {
      assert a + b == b;
    } else {
      assert (a + b)[0] == a[0];
      assert (a + b)[1..] == a[1..] + b;
      MeasurementsConcat(Step(table, a[0]), a[1..], b);
    }
  }

  /** A start at the end of a sequence of calls adds no result. */
  lemma MeasurementsAppendStart(table: Table, calls: seq<Call>, name: string, now: int)
    ensures Measurements(table, calls + [Start(name, now)]) == Measurements(table, calls)
  {
    MeasurementsConcat(table, calls, [Start(name, now)]);
  }

  /** A stop appended to a sequence of calls returns what stopping its
      label on the table the calls leave behind returns. */
  lemma {:induction false} MeasurementsAppendStop(table: Table, calls: seq<Call>, name: string, now: int)
    ensures Measurements(table, calls + [Stop(name, now)])
         == Measurements(table, calls) + [Elapsed(Replay(table, calls), name, now)]
    decreases |calls|
  {
    if calls == [] {
      assert calls + [Stop(name, now)] == [Stop(name, now)];
    } else {
      assert (calls + [Stop(name, now)])[0] == calls[0];
      assert (calls + [Stop(name, now)])[1..] == calls[1..] + [Stop(name, now)];
      MeasurementsAppendStop(Step(table, calls[0]), calls[1..], name, now);
    }
  }

  /** A stop measures from the latest start of its label in the calls
      before it; a label never started there is measured from its initial
      entry, or gives `None` when it has none. Earlier stops of the label
      do not matter, so a second stop measures again from the same start. */
  lemma LastStopMeasuresFromLastStart(table: Table, calls: seq<Call>, name: string, now: int)
    ensures LastStart(calls, name).Some? ==>
      Measurements(table, calls + [Stop(name, now)])
        == Measurements(table, calls) + [Some(now - LastStart(calls, name).value)]
    ensures LastStart(calls, name).None? ==>
      Measurements(table, calls + [Stop(name, now)])
        == Measurements(table, calls) + [Elapsed(table, name, now)]
  {
    MeasurementsAppendStop(table, calls, name, now);
    ReplayLookup(table, calls, name);
  }

  /** With a clock that never goes backwards, no stop reports a negative
      interval. */
  lemma {:induction false} AscendingClockNonNegative(table: Table, calls: seq<Call>, from: int)
    requires forall k :: k in table ==> table[k] <= from
    requires Ascending(calls, from)
    ensures forall m :: m in Measurements(table, calls) && m.Some? ==> m.value >= 0
    decreases |calls|
  {
    if calls != [] {
      var next := Step(table, calls[0]);
      var now := calls[0].clock;
      assert forall k :: k in next ==> next[k] <= now;
      AscendingClockNonNegative(next, calls[1..], now);
    }
  }

  /** A timer that starts empty (as a new one does) and reads an ascending
      clock never reports a negative interval. */
  lemma FreshTimerNonNegative(calls: seq<Call>, from: int)
    requires Ascending(calls, from)
    ensures forall m :: m in Measurements(map[], calls) && m.Some? ==> m.value >= 0
  {
    AscendingClockNonNegative(map[], calls, from);
  }
}
