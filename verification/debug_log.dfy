/**
 * The seating planner's debug log (sistema-mesas/script.js): entries are
 * pushed at the end, the oldest is shifted out once there are more than 100,
 * and the panel shows the last 10.
 */
module DebugLogs {

  const MaxLogs: nat := 100
  const ShownLogs: nat := 10

  /** The last `n` elements of `s`, or all of them when there are fewer: `s.slice(-n)` for a positive `n`. */
  function Last<T>(s: seq<T>, n: nat): (r: seq<T>)
    requires n > 0
    ensures |r| == if |s| < n then |s| else n
    ensures r == s[|s| - |r|..]
  {
    if |s| <= n then s else s[|s| - n..]
  }

  /** Keeping the last `m` and then the last `n <= m` is keeping the last `n`. */
  lemma LastOfLast<T>(s: seq<T>, m: nat, n: nat)
    requires 0 < n <= m
    ensures Last(Last(s, m), n) == Last(s, n)
  {
  }

  /** Appending to a window of the last `n` and trimming it back to `n` is the window of the longer history. */
  lemma LastAppend<T>(s: seq<T>, x: T, n: nat)
    requires n > 0
    ensures Last(Last(s, n) + [x], n) == Last(s + [x], n)
  {
    var w := Last(s, n);
    if |s| >= n {
      assert (w + [x])[|w + [x]| - n..] == (s + [x])[|s + [x]| - n..];
    }
  }

  class DebugLog<T> {
    /** `debugLogs` */
    var logs: seq<T>
    /** Every entry added since the log was created or last cleared. */
    ghost var history: seq<T>

    /** The log holds exactly the 100 most recent entries. */
    ghost predicate Valid()
      reads this
    {
      logs == Last(history, MaxLogs)
    }

    constructor()
      ensures Valid() && logs == [] && history == []
    {
      logs := [];
      history := [];
    }

    /** `addDebugLog(log)` */
    method Add(entry: T)
      requires Valid()
      modifies this
      ensures Valid() && history == old(history) + [entry]
      ensures logs == Last(old(logs) + [entry], MaxLogs)
    {
      LastAppend(history, entry, MaxLogs);
      logs := logs + [entry];
      if |logs| > MaxLogs {
        logs := logs[1..];
      }
      history := history + [entry];
    }

    /** `getDebugLogs()`: the 10 most recent entries of the whole history. */
    function Recent(): (r: seq<T>)
      requires Valid()
      reads this
      ensures r == Last(history, ShownLogs)
    {
      LastOfLast(history, MaxLogs, ShownLogs);
      Last(logs, ShownLogs)
    }

    /** `clearDebugLogStorage()` */
    method Clear()
      modifies this
      ensures Valid() && logs == [] && history == []
    {
      logs := [];
      history := [];
    }
  }
}
