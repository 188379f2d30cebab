/**
 * The node's logical clock, the inner class `LamportClock` of
 * src/Server/IdServer.java. Its counter is a Java `int`, so `timestamp++` wraps
 * from `Integer.MAX_VALUE` to `Integer.MIN_VALUE`, and so does the `+ 1` in
 * `adjustToIncomingMessage`.
 */
module LamportClocks {

  import opened JavaInt

  /**
   * The value `adjustToIncomingMessage(incoming)` leaves:
   * `Math.max(current, incoming + 1)` with Java's wrapping `+`. It is never
   * below `current`, it is above `incoming` unless `incoming + 1` wraps, and it
   * is one of the two candidates.
   */
  function Observe(current: Int32, incoming: Int32): (r: Int32)
    ensures r >= current
    ensures incoming < INT_MAX ==> r > incoming
    ensures r == current || r == Inc(incoming)
  {
    if current >= Inc(incoming) then current else Inc(incoming)
  }

  /** Below `Integer.MAX_VALUE`, `timestamp++` adds exactly one. */
  lemma IncrementAddsOne(x: Int32)
    ensures x < INT_MAX ==> Inc(x) == x + 1
    ensures x == INT_MAX ==> Inc(x) == INT_MIN
  {
  }

  /** What happens to a clock: a local event or the arrival of a stamped message. */
  datatype Event = Tick | Receive(incoming: Int32)

  function Next(c: Int32, e: Event): Int32
  {
    match e
    case Tick => Inc(c)
    case Receive(t) => Observe(c, t)
  }

  /** The clock after a run of events. */
  function Run(c: Int32, events: seq<Event>): Int32
    decreases |events|
  {
    if events == [] then c else Run(Next(c, events[0]), events[1..])
  }

  /** No local event of the run happens while the clock is at `Integer.MAX_VALUE`. */
  predicate NoWrap(c: Int32, events: seq<Event>)
    decreases |events|
  {
    events == [] || ((events[0].Tick? ==> c < INT_MAX) && NoWrap(Next(c, events[0]), events[1..]))
  }

  function TickCount(events: seq<Event>): nat
  {
    if events == [] then 0 else (if events[0].Tick? then 1 else 0) + TickCount(events[1..])
  }

  /**
   * Over a run that does not wrap, the clock never goes back, gains at least
   * one per local event, and ends past every incoming stamp it received (below
   * `Integer.MAX_VALUE`): the Lamport clock conditions.
   */
  lemma {:induction false} RunIsMonotonic(c: Int32, events: seq<Event>)
    requires NoWrap(c, events)
    ensures Run(c, events) >= c + TickCount(events)
    ensures forall i :: 0 <= i < |events| && events[i].Receive? && events[i].incoming < INT_MAX ==>
      Run(c, events) > events[i].incoming
    decreases |events|
  {
    if events != [] {
      var c' := Next(c, events[0]);
      RunIsMonotonic(c', events[1..]);
      forall i | 0 <= i < |events| && events[i].Receive? && events[i].incoming < INT_MAX
        ensures Run(c, events) > events[i].incoming
      {
        if i > 0 {
          assert events[1..][i - 1] == events[i];
        }
      }
    }
  }

  class LamportClock {
    var timestamp: Int32

    /** Starts at zero and counts its own initialisation as an event. */
    constructor ()
      ensures timestamp == 1
    {
      timestamp := 0;
      new;
      IncrementForEvent();
    }

    method GetCurrent() returns (t: Int32)
      ensures t == timestamp
    {
      t := timestamp;
    }

    method IncrementForEvent()
      modifies this
      ensures timestamp == Next(old(timestamp), Tick)
    {
      timestamp := Inc(timestamp);
    }

    method AdjustToIncomingMessage(otherTimestamp: Int32)
      modifies this
      ensures timestamp == Next(old(timestamp), Receive(otherTimestamp))
    {
      var oldValue := timestamp;
      var candidate := Inc(otherTimestamp);
      timestamp := if oldValue >= candidate then oldValue else candidate;
    }
  }
}
