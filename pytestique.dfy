/**
 * The two classes of the timer stub: `PyTestiqueAnalytics`, whose private
 * dictionary maps a label to its start reading, and `PyTestique`, which
 * holds one such timer.
 */
module PyTestique {
  import opened Wrappers
  import opened TimeTable

  class PyTestiqueAnalytics {
    /** Label -> clock reading of its latest start. */
    var timeDict: Table

    /** The `name` argument is accepted and ignored. */
    constructor (name: string)
      ensures timeDict == map[]
    {
      timeDict := map[];
    }

    /** Records `now` under `name`, replacing an earlier start of `name`. */
    method TimeStart(name: string, now: int)
      modifies this
      // That is: `name` now maps to `now`, every other label keeps its
      // entry, and no other label is added (the ensures of `Started`).
      ensures timeDict == Started(old(timeDict), name, now)
    {
      timeDict := timeDict[name := now];
    }

    /** The time since `name` was started, or `None` when it never was;
        the table is left as it is, so the start can be measured again. */
    method TimeStop(name: string, now: int) returns (r: Option<int>)
      ensures r == Elapsed(timeDict, name, now)
      ensures r.None? <==> name !in timeDict
    {
      if name in timeDict {
        return Some(now - timeDict[name]);
      }
      return None;
    }
  }

  class PyTestique {
    var analytics: PyTestiqueAnalytics

    constructor ()
      ensures fresh(analytics) && analytics.timeDict == map[]
    {
      analytics := new PyTestiqueAnalytics("");
    }
  }

  /** One start followed by two stops: both stops measure from the same
      start, and neither is `None`. */
  method StartThenStopTwice(timer: PyTestiqueAnalytics, name: string, start: int, first: int, second: int)
    returns (r1: Option<int>, r2: Option<int>)
    modifies timer
    ensures r1 == Some(first - start) && r2 == Some(second - start)
    ensures timer.timeDict == Started(old(timer.timeDict), name, start)
  {
    timer.TimeStart(name, start);
    r1 := timer.TimeStop(name, first);
    r2 := timer.TimeStop(name, second);
  }
}
