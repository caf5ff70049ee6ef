# PyTestique interval timer

A model of the timing stub of PyTestique, `dist/PyTestique.py`. The class
`PyTestiqueAnalytics` keeps a private dictionary from a label to the clock
reading taken when that label was started. `timeStart(name)` stores the
current reading under `name`, replacing any earlier one. `timeStop(name)`
returns "now minus the stored start" when `name` has an entry and `None`
otherwise. It does not remove the entry, so a later stop measures again from
the same start. The class `PyTestique` only holds one such timer.

The clock (`time.time()`) is not modelled: both operations take the clock
reading as an explicit integer argument `now`.

Modules:

- `Wrappers`: `Option`, standing for a value or Python's `None`.
- `TimeTable`: the dictionary as a value (`Table = map<string, int>`), the
  effect of a start (`Started`) and the result of a stop (`Elapsed`), and
  lemmas about single calls.
- `PyTestique`: the two classes. `PyTestiqueAnalytics` has
  the dictionary as a mutable field `timeDict`, a modifying `TimeStart` and a
  read-only `TimeStop`, both specified by the `TimeTable` functions.
- `TimeTrace`: sequences of start and stop calls on one timer (`Call`,
  `Replay`, `Measurements`), and lemmas about what any such sequence does to
  the table and what its stops return.

Stop keeps the entry, so a repeated stop measures again from the same
start; its result is a difference of two `time.time()` readings.

## Model

| member | source | states |
|---|---|---|
| `TimeTable.Started` | dist/PyTestique.py:11-12 | after a start, the label maps to the new reading; every other label keeps its entry; the key set is the old one plus the label |
| `TimeTable.Elapsed` | dist/PyTestique.py:14-17 | a stop gives `None` exactly when the label has no entry; otherwise it gives the value that added to the stored start yields the current reading |
| `TimeTable.StartOverwrites` | dist/PyTestique.py:12 | a second start of the same label leaves the table as if only the second start had happened |
| `TimeTable.StartsCommute` | dist/PyTestique.py:12 | starts of two different labels do not interfere, so their order does not matter |
| `TimeTable.StartKeyGrowth` | dist/PyTestique.py:12 | a start grows the number of labels by one when the label is new and by zero otherwise |
| `TimeTable.StartThenStop` | dist/PyTestique.py:11-16 | a stop after a start of the same label returns the current reading minus that start's reading |
| `TimeTable.ElapsedNonNegative` | dist/PyTestique.py:15-16 | a stop whose reading is not before the stored start returns a non-negative value, never `None` |
| `PyTestique.PyTestiqueAnalytics.constructor` | dist/PyTestique.py:8-9 | a new timer has an empty table; the `name` argument has no effect |
| `PyTestique.PyTestiqueAnalytics.TimeStart` | dist/PyTestique.py:11-12 | the new table is the old one with the label mapped to `now`; every other entry is unchanged and no other label is added |
| `PyTestique.PyTestiqueAnalytics.TimeStop` | dist/PyTestique.py:14-17 | returns `None` exactly when the label has no entry, otherwise `now` minus its start; it modifies nothing |
| `PyTestique.PyTestique.constructor` | dist/PyTestique.py:20-24 | the holder owns one fresh timer with an empty table |
| `PyTestique.StartThenStopTwice` | dist/PyTestique.py:11-17 | after one start, two stops both measure from that start and neither returns `None`; the table is the one the start left |
| `TimeTrace.Measurements` | dist/PyTestique.py:14-17 | a sequence of calls yields exactly one result per stop |
| `TimeTrace.MeasurementsConcat` | dist/PyTestique.py:11-17 | the results of two sequences of calls run one after the other are the first's results followed by the second's, run on the table the first leaves; so every stop's result sits in order and is determined by the calls before it |
| `TimeTrace.MeasurementsAppendStart` | dist/PyTestique.py:11-12 | a start adds no result to a sequence of calls |
| `TimeTrace.MeasurementsAppendStop` | dist/PyTestique.py:14-17 | a stop at the end of a sequence of calls returns what stopping its label on the table left by the earlier calls returns |
| `TimeTrace.LastStopMeasuresFromLastStart` | dist/PyTestique.py:11-17 | a stop after a sequence of calls returns its reading minus the latest start of its label, however many stops came between; a label never started in the sequence is measured from its initial entry or gives `None` |
| `TimeTrace.ReplayKeys` | dist/PyTestique.py:11-17 | after any sequence of calls, the labels are the initial ones plus those started; stops add and remove none |
| `TimeTrace.ReplayKeyGrowth` | dist/PyTestique.py:11-17 | after any sequence of calls, the number of labels grows by at most the number of starts |
| `TimeTrace.ReplayLookup` | dist/PyTestique.py:11-17 | after any sequence of calls, a label holds the reading of its last start, or its initial entry (or none) when it was never started |
| `TimeTrace.StopsDoNotChangeTable` | dist/PyTestique.py:14-17 | deleting every stop from a sequence of calls does not change the final table |
| `TimeTrace.AscendingClockNonNegative` | dist/PyTestique.py:11-17 | when no stored start is after the first reading and readings never go backwards, no stop returns a negative value |
| `TimeTrace.FreshTimerNonNegative` | dist/PyTestique.py:8-17 | a new timer driven by a clock that never goes backwards never reports a negative interval |

## Left out

- `time.time()`: the wall clock and its float readings are not modelled. Each call takes an integer reading instead, so float rounding is not captured.
- `PyTestique.PyTestique.constructor`: the source calls `PyTestiqueAnalytics()` without the required `name` argument, which raises a `TypeError` in Python. The model passes an empty name, which the timer ignores, and so gives the holder a working timer.
- `PyTestiqueAsserts`: imported by the example scripts, but it is not defined in `dist/PyTestique.py`, so it is not part of this model.
- The calls `PyTestique(sys.argv, globals())` in `dist/run_test.py` and `dist/run_tests.py`: they pass two arguments to a constructor that takes none, so they would raise rather than run anything.
- `dist/run_test.py` and `dist/run_tests.py`: example test bodies doing file-system I/O and printing; the timer is not used by them.
