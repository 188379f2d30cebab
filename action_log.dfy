/**
 * The bounded log of the most recent actions a coordinator applied, keyed by
 * the clock reading at which it applied them (src/Server/ActionLog.java).
 */
module ActionLogs {

  import opened JavaInt
  import opened Wrappers
  import opened Actions

  /** The `HashMap<Integer, ActionObject>` (and the `SortedMap` tails cut from it). */
  type Log = map<Int32, Action>

  /** A non-empty set of timestamps has a smallest one. */
  lemma {:induction false} LeastExists(keys: set<Int32>)
    requires keys != {}
    ensures exists m :: m in keys && forall k :: k in keys ==> m <= k
    decreases |keys|
  {
    var x :| x in keys;
    var rest := keys - {x};
    if rest == {} {
      LeastOfSplit(keys, x, x);
    } else {
      LeastExists(rest);
      var r :| r in rest && forall k :: k in rest ==> r <= k;
      LeastOfSplit(keys, x, r);
    }
  }

  /** The smaller of one key and the least of the others is the least key. */
  lemma LeastOfSplit(keys: set<Int32>, x: Int32, r: Int32)
    requires x in keys
    requires r == x || r in keys - {x}
    requires forall k :: k in keys - {x} ==> r <= k
    ensures var m := if x <= r then x else r; m in keys && forall k :: k in keys ==> m <= k
  {
    forall k | k in keys && k != x ensures r <= k {
      assert k in keys - {x};
    }
  }

  /** The smallest of a non-empty set of timestamps. */
  ghost function Least(keys: set<Int32>): (m: Int32)
    requires keys != {}
    ensures m in keys
    ensures forall k :: k in keys ==> m <= k
  {
    LeastExists(keys);
    var m :| m in keys && forall k :: k in keys ==> m <= k; m
  }

  /** Any key no greater than every key is the least one. */
  lemma LeastIsTheMinimum(keys: set<Int32>, m: Int32)
    requires m in keys && forall k :: k in keys ==> m <= k
    ensures Least(keys) == m
  {
  }

  /** Removing a minimum key, or the sentinel from an empty log, is `WithoutOldest`. */
  lemma RemovingTheMinimum(log: Log, least: Int32)
    requires log == map[] || (least in log && forall k :: k in log ==> least <= k)
    ensures log - {least} == WithoutOldest(log)
  {
    if log != map[] {
      LeastIsTheMinimum(log.Keys, least);
    }
  }

  /** The log after `removeOldest`. */
  ghost function WithoutOldest(log: Log): Log
  {
    if log == map[] then log else log - {Least(log.Keys)}
  }

  /** The log after `appendAction(timestamp, action)` on a log of the given capacity. */
  ghost function Appended(log: Log, capacity: int, timestamp: Int32, action: Action): Log
  {
    (if |log| >= capacity then WithoutOldest(log) else log)[timestamp := action]
  }

  /** What `getActionsSinceTimestamp(target)` returns; `None` is the source's null. */
  function Since(log: Log, target: Int32): Option<Log>
  {
    if target !in log then None else Some(TailAfter(log, target))
  }

  /** The entries of `log` whose key exceeds `target`. */
  function TailAfter(log: Log, target: Int32): Log
  {
    map k | k in log && k > target :: log[k]
  }

  /** The keys of a `SortedMap` in the order its `keySet()` iterates them. */
  ghost function Ascending(keys: set<Int32>): seq<Int32>
    decreases |keys|
  {
    if keys == {} then [] else var m := Least(keys); [m] + Ascending(keys - {m})
  }

  /**
   * `removeOldest` removes exactly the entry with the smallest key, keeps every
   * other entry as it was, and removes nothing from an empty log.
   */
  lemma RemoveOldestRemovesExactlyTheLeast(log: Log)
    ensures log == map[] ==> WithoutOldest(log) == log
    ensures log != map[] ==>
      && WithoutOldest(log).Keys == log.Keys - {Least(log.Keys)}
      && |WithoutOldest(log)| == |log| - 1
      && (forall k :: k in WithoutOldest(log) ==> Least(log.Keys) < k && WithoutOldest(log)[k] == log[k])
  {
    if log != map[] {
      var least := Least(log.Keys);
      assert WithoutOldest(log).Keys == log.Keys - {least};
      assert |log.Keys - {least}| == |log.Keys| - 1;
    }
  }

  /**
   * `appendAction` evicts before it inserts, so a log of capacity at least one
   * that was within its capacity stays within it.
   */
  lemma AppendStaysWithinCapacity(log: Log, capacity: int, timestamp: Int32, action: Action)
    requires 1 <= capacity && |log| <= capacity
    ensures |Appended(log, capacity, timestamp, action)| <= capacity
  {
    RemoveOldestRemovesExactlyTheLeast(log);
  }

  /**
   * After `appendAction(timestamp, action)` the log maps `timestamp` to
   * `action`, and every other entry it holds was there before.
   */
  lemma AppendRecordsAction(log: Log, capacity: int, timestamp: Int32, action: Action)
    ensures Appended(log, capacity, timestamp, action)[timestamp] == action
    ensures forall k :: k in Appended(log, capacity, timestamp, action) && k != timestamp ==>
      k in log && Appended(log, capacity, timestamp, action)[k] == log[k]
  {
    RemoveOldestRemovesExactlyTheLeast(log);
  }

  /**
   * `getActionsSinceTimestamp(t)` is null exactly when `t` is not a key;
   * otherwise it holds exactly the entries with a key greater than `t`, so `t`
   * itself is excluded.
   */
  lemma SinceIsTheTailAfter(log: Log, t: Int32)
    ensures Since(log, t).None? <==> t !in log
    ensures Since(log, t).Some? ==>
      && t !in Since(log, t).value
      && (forall k :: k in Since(log, t).value <==> k in log && k > t)
      && (forall k :: k in Since(log, t).value ==> Since(log, t).value[k] == log[k])
  {
  }

  /** A sorted map's keys iterate each key exactly once, in strictly ascending order. */
  lemma AscendingListsKeysInOrder(keys: set<Int32>)
    ensures |Ascending(keys)| == |keys|
    ensures forall k :: k in keys <==> k in Ascending(keys)
    ensures forall i, j :: 0 <= i < j < |Ascending(keys)| ==> Ascending(keys)[i] < Ascending(keys)[j]
  {
    AscendingMembers(keys);
    AscendingSorted(keys);
  }

  lemma {:induction false} AscendingMembers(keys: set<Int32>)
    ensures |Ascending(keys)| == |keys|
    ensures forall k :: k in keys <==> k in Ascending(keys)
    decreases |keys|
  {
    if keys != {} {
      var m := Least(keys);
      AscendingMembers(keys - {m});
      assert Ascending(keys) == [m] + Ascending(keys - {m});
    }
  }

  lemma {:induction false} AscendingSorted(keys: set<Int32>)
    ensures forall i, j :: 0 <= i < j < |Ascending(keys)| ==> Ascending(keys)[i] < Ascending(keys)[j]
    decreases |keys|
  {
    if keys != {} {
      var m := Least(keys);
      var rest := keys - {m};
      AscendingSorted(rest);
      AscendingMembers(rest);
      var s, t := Ascending(keys), Ascending(rest);
      assert s == [m] + t;
      forall i, j | 0 <= i < j < |s| ensures s[i] < s[j] {
        assert s[j] == t[j - 1];
        assert s[j] in rest;
        if i > 0 {
          assert s[i] == t[i - 1];
        }
      }
    }
  }

  // ---------------------------------------------------------------------------
  // Appending a run of strictly increasing timestamps

  type Entry = (Int32, Action)

  predicate StrictlyIncreasing(es: seq<Entry>)
  {
    forall i, j :: 0 <= i < j < |es| ==> es[i].0 < es[j].0
  }

  /** The log that holds exactly the given entries. */
  function EntriesMap(es: seq<Entry>): Log
  {
    if es == [] then map[] else EntriesMap(es[1..])[es[0].0 := es[0].1]
  }

  /** A log of the given capacity, empty at first, after appending `es` in order. */
  ghost function AppendAll(capacity: int, es: seq<Entry>): Log
  {
    if es == [] then map[]
    else
      var last := es[|es| - 1];
      Appended(AppendAll(capacity, es[..|es| - 1]), capacity, last.0, last.1)
  }

  lemma {:induction false} EntriesMapKeys(es: seq<Entry>)
    ensures EntriesMap(es).Keys == set i | 0 <= i < |es| :: es[i].0
  {
    if es != [] {
      EntriesMapKeys(es[1..]);
      var rest := set i | 0 <= i < |es[1..]| :: es[1..][i].0;
      assert (set i | 0 <= i < |es| :: es[i].0) == {es[0].0} + rest by {
        forall k | k in rest ensures k in set i | 0 <= i < |es| :: es[i].0 {
          var i :| 0 <= i < |es[1..]| && es[1..][i].0 == k;
          assert es[i + 1].0 == k;
        }
      }
    }
  }

  lemma {:induction false} EntriesMapValues(es: seq<Entry>)
    requires StrictlyIncreasing(es)
    ensures forall i :: 0 <= i < |es| ==> es[i].0 in EntriesMap(es) && EntriesMap(es)[es[i].0] == es[i].1
  {
    if es != [] {
      EntriesMapValues(es[1..]);
      forall i | 0 <= i < |es| ensures es[i].0 in EntriesMap(es) && EntriesMap(es)[es[i].0] == es[i].1 {
        if i > 0 {
          assert es[1..][i - 1] == es[i];
        }
      }
    }
  }

  /** Every key of the entries' log exceeds `x` when every entry's key does. */
  lemma EntriesMapAbove(es: seq<Entry>, x: int)
    requires forall i :: 0 <= i < |es| ==> es[i].0 > x
    ensures forall k :: k in EntriesMap(es) ==> k > x
  {
    EntriesMapKeys(es);
  }

  lemma IncreasingSlice(es: seq<Entry>, a: nat, b: nat)
    requires StrictlyIncreasing(es) && a <= b <= |es|
    ensures StrictlyIncreasing(es[a..b])
  {
    assert forall i :: 0 <= i < b - a ==> es[a..b][i] == es[a + i];
  }

  /** Every key after the first of an increasing run exceeds the first. */
  lemma RestAboveFirst(es: seq<Entry>)
    requires StrictlyIncreasing(es) && es != []
    ensures forall k :: k in EntriesMap(es[1..]) ==> k > es[0].0
  {
    assert forall i :: 0 <= i < |es| - 1 ==> es[1..][i] == es[i + 1];
    EntriesMapAbove(es[1..], es[0].0);
  }

  lemma {:induction false} EntriesMapSize(es: seq<Entry>)
    requires StrictlyIncreasing(es)
    ensures |EntriesMap(es)| == |es|
  {
    if es != [] {
      IncreasingSlice(es, 1, |es|);
      EntriesMapSize(es[1..]);
      RestAboveFirst(es);
    }
  }

  /** Removing the first (smallest) key of an increasing run leaves the rest of the run. */
  lemma EntriesMapWithoutOldest(es: seq<Entry>)
    requires StrictlyIncreasing(es) && es != []
    ensures WithoutOldest(EntriesMap(es)) == EntriesMap(es[1..])
  {
    var m := EntriesMap(es);
    assert m == EntriesMap(es[1..])[es[0].0 := es[0].1];
    RestAboveFirst(es);
    LeastIsTheMinimum(m.Keys, es[0].0);
    assert m - {es[0].0} == EntriesMap(es[1..]);
  }

  /** Adding an entry whose key exceeds every key of the run extends the run's log. */
  lemma {:induction false} EntriesMapSnoc(es: seq<Entry>, e: Entry)
    requires StrictlyIncreasing(es + [e])
    ensures EntriesMap(es + [e]) == EntriesMap(es)[e.0 := e.1]
  {
    if es != [] {
      assert (es + [e])[1..] == es[1..] + [e];
      IncreasingSlice(es + [e], 1, |es| + 1);
      EntriesMapSnoc(es[1..], e);
      assert es[0].0 < e.0 by { assert (es + [e])[0] == es[0]; assert (es + [e])[|es|] == e; }
    }
  }

  /** One append to a log that holds an increasing run within its capacity. */
  lemma AppendToRun(capacity: int, w: seq<Entry>, e: Entry)
    requires 1 <= capacity && |w| <= capacity && StrictlyIncreasing(w + [e])
    ensures Appended(EntriesMap(w), capacity, e.0, e.1)
      == EntriesMap((if |w| == capacity then w[1..] else w) + [e])
  {
    assert (w + [e])[..|w|] == w;
    IncreasingSlice(w + [e], 0, |w|);
    EntriesMapSize(w);
    if |w| == capacity {
      EntriesMapWithoutOldest(w);
      assert (w + [e])[1..] == w[1..] + [e];
      IncreasingSlice(w + [e], 1, |w| + 1);
      EntriesMapSnoc(w[1..], e);
    } else {
      EntriesMapSnoc(w, e);
    }
  }

  /** The first index of the last `capacity` entries of a run of length `n`. */
  function WindowStart(capacity: int, n: nat): nat
  {
    if n <= capacity then 0 else n - capacity
  }

  /**
   * Appending strictly increasing timestamps to an empty log of capacity at
   * least one keeps exactly the last `capacity` of them.
   */
  lemma {:induction false} AppendKeepsLastCapacity(capacity: int, es: seq<Entry>)
    requires 1 <= capacity && StrictlyIncreasing(es)
    ensures AppendAll(capacity, es) == EntriesMap(es[WindowStart(capacity, |es|)..])
    decreases |es|
  {
    if es != [] {
      var p := es[..|es| - 1];
      IncreasingSlice(es, 0, |es| - 1);
      AppendKeepsLastCapacity(capacity, p);
      WindowStep(capacity, es);
    }
  }

  /** Appending the last entry of a run to the window of the rest gives the run's window. */
  lemma WindowStep(capacity: int, es: seq<Entry>)
    requires 1 <= capacity && StrictlyIncreasing(es) && es != []
    ensures
      var n := |es|;
      Appended(EntriesMap(es[..n - 1][WindowStart(capacity, n - 1)..]), capacity, es[n - 1].0, es[n - 1].1)
        == EntriesMap(es[WindowStart(capacity, n)..])
  {
    var n := |es|;
    var lo' := WindowStart(capacity, n - 1);
    var w, e := es[..n - 1][lo'..], es[n - 1];
    LastWindow(es, lo');
    IncreasingSlice(es, lo', n);
    AppendToRun(capacity, w, e);
  }

  /** How the window of a run relates to the window of the run without its last entry. */
  lemma LastWindow(es: seq<Entry>, lo: nat)
    requires lo < |es|
    ensures es[..|es| - 1][lo..] + [es[|es| - 1]] == es[lo..]
    ensures lo + 1 < |es| ==> es[..|es| - 1][lo..][1..] + [es[|es| - 1]] == es[lo + 1..]
  {
  }

  /** In an increasing run, the tail after the `j`-th key is the run after index `j`. */
  lemma {:induction false} EntriesMapSinceIndex(w: seq<Entry>, j: nat)
    requires StrictlyIncreasing(w) && j < |w|
    ensures Since(EntriesMap(w), w[j].0) == Some(EntriesMap(w[j + 1..]))
  {
    var m := EntriesMap(w);
    var rest := EntriesMap(w[1..]);
    assert m == rest[w[0].0 := w[0].1];
    RestAboveFirst(w);
    if j == 0 {
      assert w[j + 1..] == w[1..];
      assert TailAfter(m, w[0].0) == rest;
    } else {
      IncreasingSlice(w, 1, |w|);
      assert w[1..][j - 1] == w[j];
      assert w[1..][j..] == w[j + 1..];
      EntriesMapSinceIndex(w[1..], j - 1);
      assert w[0].0 < w[j].0;
      assert TailAfter(m, w[j].0) == TailAfter(rest, w[j].0);
    }
  }

  /**
   * After a run of increasing appends, asking for the tail after a timestamp
   * that was evicted gives "not found".
   */
  lemma EvictedTimestampIsNotFound(capacity: int, es: seq<Entry>, i: nat)
    requires 1 <= capacity && StrictlyIncreasing(es) && i < |es| - capacity
    ensures Since(AppendAll(capacity, es), es[i].0) == None
  {
    AppendKeepsLastCapacity(capacity, es);
    var lo := WindowStart(capacity, |es|);
    assert forall j :: 0 <= j < |es| - lo ==> es[lo..][j] == es[lo + j];
    EntriesMapAbove(es[lo..], es[i].0);
  }

  /**
   * After a run of increasing appends, asking for the tail after a retained
   * timestamp gives exactly the entries appended after it.
   */
  lemma RetainedTimestampGivesLaterEntries(capacity: int, es: seq<Entry>, i: nat)
    requires 1 <= capacity && StrictlyIncreasing(es) && |es| - capacity <= i < |es|
    ensures Since(AppendAll(capacity, es), es[i].0) == Some(EntriesMap(es[i + 1..]))
  {
    AppendKeepsLastCapacity(capacity, es);
    WindowSinceIndex(es, WindowStart(capacity, |es|), i);
  }

  lemma WindowSinceIndex(es: seq<Entry>, lo: nat, i: nat)
    requires StrictlyIncreasing(es) && lo <= i < |es|
    ensures Since(EntriesMap(es[lo..]), es[i].0) == Some(EntriesMap(es[i + 1..]))
  {
    var w := es[lo..];
    IncreasingSlice(es, lo, |es|);
    assert w[i - lo] == es[i];
    assert w[i - lo + 1..] == es[i + 1..];
    EntriesMapSinceIndex(w, i - lo);
  }

  // ---------------------------------------------------------------------------

  class ActionLog {
    var log: Log
    const capacity: Int32

    ghost predicate Valid()
      reads this
    {
      1 <= capacity ==> |log| <= capacity
    }

    constructor (capacity: Int32)
      ensures Valid() && log == map[] && this.capacity == capacity
    {
      this.capacity := capacity;
      log := map[];
    }

    /** After `clear`, the log contains no timestamp at all. */
    method Clear()
      modifies this
      ensures Valid() && log == map[]
      ensures forall t: Int32 :: t !in log
    {
      log := map[];
    }

    method ContainsTimestamp(timestamp: Int32) returns (b: bool)
      ensures b <==> timestamp in log
    {
      b := timestamp in log;
    }

    /** Reads only: the log is left as it was. */
    method GetActionsSinceTimestamp(targetTimestamp: Int32) returns (actions: Option<Log>)
      ensures actions == Since(log, targetTimestamp)
    {
      var present := ContainsTimestamp(targetTimestamp);
      if !present {
        return None;
      }
      var tail: Log := map[];
      var unvisited := log.Keys;
      while unvisited != {}
        invariant unvisited <= log.Keys
        invariant forall k :: k in tail <==> k in log && k !in unvisited && k > targetTimestamp
        invariant forall k :: k in tail ==> tail[k] == log[k]
        decreases |unvisited|
      {
        var timestamp :| timestamp in unvisited;
        if timestamp > targetTimestamp {
          tail := tail[timestamp := log[timestamp]];
        }
        unvisited := unvisited - {timestamp};
      }
      assert tail == TailAfter(log, targetTimestamp);
      return Some(tail);
    }

    method AppendAction(timestamp: Int32, action: Action)
      requires Valid()
      modifies this
      ensures Valid()
      ensures log == Appended(old(log), capacity, timestamp, action)
    {
      ghost var before := log;
      if |log| >= capacity {
        RemoveOldest();
      }
      log := log[timestamp := action];
      if 1 <= capacity {
        AppendStaysWithinCapacity(before, capacity, timestamp, action);
      }
    }

    /** Walks the keys to a running minimum that starts at `Integer.MAX_VALUE`. */
    method RemoveOldest()
      modifies this
      ensures log == WithoutOldest(old(log))
    {
      var leastTimestamp: Int32 := INT_MAX;
      var keys := log.Keys;
      var unvisited := keys;
      while unvisited != {}
        invariant unvisited <= keys
        invariant leastTimestamp == INT_MAX || leastTimestamp in keys
        invariant forall k :: k in keys && k !in unvisited ==> leastTimestamp <= k
        decreases |unvisited|
      {
        var timestamp :| timestamp in unvisited;
        leastTimestamp := if leastTimestamp <= timestamp then leastTimestamp else timestamp;
        unvisited := unvisited - {timestamp};
      }
      assert INT_MAX in keys || leastTimestamp in keys || keys == {};
      RemovingTheMinimum(log, leastTimestamp);
      log := log - {leastTimestamp};
    }
  }
}
