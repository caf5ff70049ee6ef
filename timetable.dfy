/**
 * The private dictionary of the interval timer, as a value: a map from a
 * label to the clock reading taken when that label was last started.
 * The clock (`time.time()` in the source) is an integer reading supplied
 * by the caller.
 */
module TimeTable {
  import opened Wrappers

  type Table = map<string, int>

  /** The table after starting `name` at clock reading `now`. */
  function Started(table: Table, name: string, now: int): (t': Table)
    ensures name in t' && t'[name] == now
    ensures forall k :: k in table && k != name ==> k in t' && t'[k] == table[k]
    ensures t'.Keys == table.Keys + {name}
  {
    table[name := now]
  }

  /** What stopping `name` at clock reading `now` returns: the time since
      its recorded start, or `None` when it was never started. */
  function Elapsed(table: Table, name: string, now: int): (r: Option<int>)
    ensures r.None? <==> name !in table
    ensures r.Some? ==> r.value + table[name] == now
  {
    if name in table then Some(now - table[name]) else None
  }

  /** A second start of the same label replaces the first one. */
  lemma StartOverwrites(table: Table, name: string, first: int, second: int)
    ensures Started(Started(table, name, first), name, second) == Started(table, name, second)
  {
  }

  /** Starting two different labels: the order does not matter. */
  lemma StartsCommute(table: Table, a: string, ta: int, b: string, tb: int)
    requires a != b
    ensures Started(Started(table, a, ta), b, tb) == Started(Started(table, b, tb), a, ta)
  {
  }

  /** A start adds exactly one label when it is new, and none otherwise. */
  lemma StartKeyGrowth(table: Table, name: string, now: int)
    ensures |Started(table, name, now).Keys| == |table.Keys| + (if name in table then 0 else 1)
  {
  }

  /** Stopping right after a start measures from that start. */
  lemma StartThenStop(table: Table, name: string, start: int, now: int)
    ensures Elapsed(Started(table, name, start), name, now) == Some(now - start)
  {
  }

  /** A stop whose clock reading is not before the start never reports a
      negative interval. */
  lemma ElapsedNonNegative(table: Table, name: string, now: int)
    requires name in table && table[name] <= now
    ensures Elapsed(table, name, now).Some? && Elapsed(table, name, now).value >= 0
  {
  }
}
