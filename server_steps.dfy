/**
 * What one server of src/Server/IdServer.java does in one step, as functions
 * of its state before the step and of what the rest of the world answers
 * during it. The class in module IdServers is proved to follow these.
 */
module ServerSteps {

  import opened Wrappers
  import opened JavaInt
  import opened Actions
  import opened ServerResponses
  import opened LoginInfos
  import opened IdentityTables
  import opened ActionLogs
  import opened SyncInfos
  import opened Replicas
  import opened LamportClocks
  import opened Bully

  /** `ACTION_LOG_SIZE`. */
  const ACTION_LOG_SIZE: Int32 := 3

  /** `UUID.randomUUID()` and `new Date()` as drawn for one new record. */
  datatype Stamp = Stamp(uuid: string, now: Date)

  /**
   * The answers of the outside world during one step.
   * - `up`: the replicas (indices into the server's list) that answer
   *   registry lookups and remote calls;
   * - `caller`: what `getClientHost()` returns, null outside a remote call;
   * - `coordinatorHint(i)`: replica `i`'s `getPreviousCoordinatorAddress()`;
   * - `pingReply`: the coordinator's `receivePing` answer;
   * - `syncReply`: the other server's `getMissingInfoSinceTimestamp` answer;
   * - `stamp(t)`: the uuid and date of a record made while the clock reads `t`.
   */
  datatype Env = Env(
    up: set<nat>,
    caller: Option<string>,
    coordinatorHint: nat -> Option<string>,
    pingReply: bool,
    syncReply: Option<SyncInfo>,
    stamp: Int32 -> Stamp)

  /**
   * How a step ends: normally, with a `RemoteException` thrown out of it, with
   * a dereferenced null, or with `System.exit`.
   */
  datatype Outcome = Completed | RemoteFailure | NullDereference | ProcessExit

  /** The part of a server's state that actions change. */
  datatype Node = Node(table: Table, clock: Int32, latest: Int32, log: Log, outbox: seq<Message>)

  /** The replicas a call loop reaches: those with a stub that answer. */
  function Connected(stubs: set<nat>, up: set<nat>): set<nat>
  {
    stubs * up
  }

  /** The table and response of `applyAction` on a node. */
  function ApplyOn(n: Node, action: Action, env: Env): Applied
  {
    Apply(n.table, action, env.stamp(n.clock).uuid, env.stamp(n.clock).now, env.caller)
  }

  /**
   * `applyAction`'s effect on a node: a rejected action changes nothing; an
   * accepted one changes the table and ticks the clock, and on a coordinator
   * also stamps the action with the clock, copies it to the connected replicas
   * with the previous stamp, and logs it.
   */
  ghost function ApplyStep(n: Node, coordinator: bool, targets: set<nat>, hosts: seq<string>,
                           action: Action, env: Env): Node
  {
    if !Accepts(n.table, action) then n
    else
      var table := ApplyOn(n, action, env).table;
      var t := Inc(n.clock);
      if !coordinator then n.(table := table, clock := t)
      else Node(table, t, t, Appended(n.log, ACTION_LOG_SIZE, t, action),
                n.outbox + Broadcast(hosts, targets, |hosts|, PlayReplicatedAction(action, t, n.latest)))
  }

  /** Several `applyAction` calls in a row. */
  ghost function Replay(n: Node, coordinator: bool, targets: set<nat>, hosts: seq<string>,
                        actions: seq<Action>, env: Env): Node
    decreases |actions|
  {
    if actions == [] then n
    else ApplyStep(Replay(n, coordinator, targets, hosts, actions[..|actions| - 1], env),
                   coordinator, targets, hosts, actions[|actions| - 1], env)
  }

  /** The actions of `tail` under the given keys, in that order. */
  function TailActions(tail: Log, keys: seq<Int32>): seq<Action>
  {
    if keys == [] then []
    else
      var last := keys[|keys| - 1];
      TailActions(tail, keys[..|keys| - 1]) + (if last in tail then [tail[last]] else [])
  }

  /** A `SortedMap`'s actions in the order its key set iterates them. */
  ghost function InAscendingOrder(tail: Log): seq<Action>
  {
    TailActions(tail, Ascending(tail.Keys))
  }

  datatype SyncStep = SyncStep(node: Node, outcome: Outcome)

  /**
   * `syncWithOtherServer(other)`: it calls `getMissingInfoSinceTimestamp` with
   * the node's latest timestamp on the other's stub, then either replaces the
   * whole table or replays the tail in ascending key order. A null stub, a
   * null answer or a payload with neither part ends in a
   * null dereference; an unreachable peer in a RemoteException.
   */
  ghost function Sync(n: Node, coordinator: bool, stubs: set<nat>, hosts: seq<string>,
                      other: nat, env: Env): SyncStep
    requires other < |hosts|
  {
    if other !in stubs then SyncStep(n, NullDereference)
    else
      var asked := n.(outbox := n.outbox + [Message(hosts[other], GetMissingInfoSinceTimestamp(n.latest))]);
      if other !in env.up then SyncStep(asked, RemoteFailure)
      else match env.syncReply
        case None => SyncStep(asked, NullDereference)
        case Some(info) =>
          if IsEntireDatabase(info) then SyncStep(asked.(table := info.allData.value), Completed)
          else match info.recentActions
            case None => SyncStep(asked, NullDereference)
            case Some(tail) =>
              SyncStep(Replay(asked, coordinator, Connected(stubs, env.up), hosts, InAscendingOrder(tail), env),
                       Completed)
  }

  /** `getMissingInfoSinceTimestamp(t)`: the whole table, null, or the tail after `t`. */
  function MissingInfo(table: Table, log: Log, t: Int32): Option<SyncInfo>
  {
    match Since(log, t)
    case None => Some(FromAllData(table))
    case Some(tail) => if |tail| == 0 then None else Some(FromRecentActions(Some(tail)))
  }

  // ---------------------------------------------------------------------------

  /**
   * `applyAction` answers as the table model says. A rejected action returns
   * before the clock tick and the log append. An accepted action ticks the
   * clock once; on a replica nothing else changes; on a coordinator the
   * latest stamp becomes the clock, the action is logged under it and copied
   * to exactly the connected replicas with the previous stamp.
   */
  lemma ApplyStepEffects(n: Node, coordinator: bool, targets: set<nat>, hosts: seq<string>,
                         action: Action, env: Env)
    ensures var n' := ApplyStep(n, coordinator, targets, hosts, action, env);
      && n'.table == ApplyOn(n, action, env).table
      && (!Accepts(n.table, action) ==> n' == n)
      && (Accepts(n.table, action) ==> n'.clock == Next(n.clock, Tick))
      && (Accepts(n.table, action) && !coordinator ==>
            n'.latest == n.latest && n'.log == n.log && n'.outbox == n.outbox)
      && (Accepts(n.table, action) && coordinator ==>
            && n'.latest == n'.clock
            && n'.log[n'.latest] == action
            && (forall k :: k in n'.log && k != n'.latest ==> k in n.log && n'.log[k] == n.log[k])
            && n'.outbox[..|n.outbox|] == n.outbox
            && (forall m :: m in n'.outbox[|n.outbox|..] <==>
                  m.call == PlayReplicatedAction(action, n'.latest, n.latest) &&
                  exists i :: 0 <= i < |hosts| && i in targets && hosts[i] == m.to))
  {
    var ta := n.table;
    RejectionChangesNothing(ta, action, env.stamp(n.clock).uuid, env.stamp(n.clock).now, env.caller);
    if Accepts(n.table, action) && coordinator {
      var t := Inc(n.clock);
      AppendRecordsAction(n.log, ACTION_LOG_SIZE, t, action);
      var call := PlayReplicatedAction(action, t, n.latest);
      var sent := Broadcast(hosts, targets, |hosts|, call);
      BroadcastCallsEachTargetOnce(hosts, targets, |hosts|, call);
      IndicesInAreExact(targets, |hosts|);
      var n' := ApplyStep(n, coordinator, targets, hosts, action, env);
      assert n'.outbox[|n.outbox|..] == sent;
      forall m ensures m in sent <==> m.call == call && exists i :: 0 <= i < |hosts| && i in targets && hosts[i] == m.to {
        if m in sent {
          var j :| 0 <= j < |sent| && sent[j] == m;
          assert IndicesIn(targets, |hosts|)[j] in IndicesIn(targets, |hosts|);
        }
        if m.call == call && exists i :: 0 <= i < |hosts| && i in targets && hosts[i] == m.to {
          var i :| 0 <= i < |hosts| && i in targets && hosts[i] == m.to;
          assert i in IndicesIn(targets, |hosts|);
          var j :| 0 <= j < |IndicesIn(targets, |hosts|)| && IndicesIn(targets, |hosts|)[j] == i;
          assert sent[j] == m;
        }
      }
    }
  }

  /**
   * Replaying actions on a replica moves neither its latest stamp, nor its
   * log, nor its outbox: only the table and the clock change.
   */
  lemma {:induction false} ReplayOnReplicaKeepsLatest(n: Node, targets: set<nat>, hosts: seq<string>,
                                                      actions: seq<Action>, env: Env)
    ensures var n' := Replay(n, false, targets, hosts, actions, env);
      n'.latest == n.latest && n'.log == n.log && n'.outbox == n.outbox
    decreases |actions|
  {
    if actions != [] {
      ReplayOnReplicaKeepsLatest(n, targets, hosts, actions[..|actions| - 1], env);
    }
  }

  /** Replaying actions on a coordinator keeps its log within `ACTION_LOG_SIZE`. */
  lemma {:induction false} ReplayKeepsLogBounded(n: Node, coordinator: bool, targets: set<nat>,
                                                 hosts: seq<string>, actions: seq<Action>, env: Env)
    requires |n.log| <= ACTION_LOG_SIZE
    ensures |Replay(n, coordinator, targets, hosts, actions, env).log| <= ACTION_LOG_SIZE
    decreases |actions|
  {
    if actions != [] {
      var before := Replay(n, coordinator, targets, hosts, actions[..|actions| - 1], env);
      ReplayKeepsLogBounded(n, coordinator, targets, hosts, actions[..|actions| - 1], env);
      AppendStaysWithinCapacity(before.log, ACTION_LOG_SIZE, Inc(before.clock), actions[|actions| - 1]);
    }
  }

  /**
   * Every key of a coordinator's log was a clock reading: while the clock does
   * not wrap, an action keeps every log key at or below the clock, and the key
   * it adds is above every earlier one.
   */
  lemma ApplyStepKeepsLogBehindClock(n: Node, coordinator: bool, targets: set<nat>, hosts: seq<string>,
                                     action: Action, env: Env)
    requires forall k :: k in n.log ==> k <= n.clock
    requires n.clock < INT_MAX
    ensures var n' := ApplyStep(n, coordinator, targets, hosts, action, env);
      && (forall k :: k in n'.log ==> k <= n'.clock)
      && (n'.log != n.log ==> n'.clock in n'.log && forall k :: k in n.log ==> k < n'.clock)
  {
    if Accepts(n.table, action) && coordinator {
      AppendRecordsAction(n.log, ACTION_LOG_SIZE, Inc(n.clock), action);
    }
  }

  /**
   * Log keys are clock readings and the clock starts at one: while the clock
   * does not wrap, an action moves the clock up by at most one and keeps every
   * log key between one and the clock.
   */
  lemma ApplyStepKeepsLogKeysPositive(n: Node, coordinator: bool, targets: set<nat>, hosts: seq<string>,
                                      action: Action, env: Env)
    requires 1 <= n.clock < INT_MAX
    requires forall k :: k in n.log ==> 1 <= k <= n.clock
    ensures var n' := ApplyStep(n, coordinator, targets, hosts, action, env);
      && n.clock <= n'.clock <= n.clock + 1
      && forall k :: k in n'.log ==> 1 <= k <= n'.clock
  {
    ApplyStepKeepsLogBehindClock(n, coordinator, targets, hosts, action, env);
    if Accepts(n.table, action) && coordinator {
      AppendRecordsAction(n.log, ACTION_LOG_SIZE, Inc(n.clock), action);
    }
  }

  /** The same over a replayed tail that does not wrap the clock. */
  lemma {:induction false} ReplayKeepsLogKeysPositive(n: Node, coordinator: bool, targets: set<nat>,
                                                      hosts: seq<string>, actions: seq<Action>, env: Env)
    requires 1 <= n.clock && n.clock + |actions| < INT_MAX
    requires forall k :: k in n.log ==> 1 <= k <= n.clock
    ensures var n' := Replay(n, coordinator, targets, hosts, actions, env);
      && n.clock <= n'.clock <= n.clock + |actions|
      && forall k :: k in n'.log ==> 1 <= k <= n'.clock
    decreases |actions|
  {
    if actions != [] {
      var init := actions[..|actions| - 1];
      ReplayKeepsLogKeysPositive(n, coordinator, targets, hosts, init, env);
      ApplyStepKeepsLogKeysPositive(Replay(n, coordinator, targets, hosts, init, env), coordinator, targets,
                                    hosts, actions[|actions| - 1], env);
    }
  }

  /**
   * `syncWithOtherServer` completes exactly when the other server's stub is
   * set, it answers, and its answer is a table or a tail. A table replaces
   * the node's table outright. It never moves a replica's latest stamp.
   */
  lemma SyncOutcomes(n: Node, coordinator: bool, stubs: set<nat>, hosts: seq<string>, other: nat, env: Env)
    requires other < |hosts|
    ensures var s := Sync(n, coordinator, stubs, hosts, other, env);
      && (s.outcome == Completed <==>
            other in stubs && other in env.up && env.syncReply.Some? &&
            (IsEntireDatabase(env.syncReply.value) || env.syncReply.value.recentActions.Some?))
      && (s.outcome == RemoteFailure <==> other in stubs && other !in env.up)
      && (other in stubs ==>
            |s.node.outbox| > |n.outbox| &&
            s.node.outbox[..|n.outbox| + 1] == n.outbox + [Message(hosts[other], GetMissingInfoSinceTimestamp(n.latest))])
      && (s.outcome == Completed && IsEntireDatabase(env.syncReply.value) ==>
            s.node.table == env.syncReply.value.allData.value)
      && (!coordinator ==> s.node.latest == n.latest && s.node.log == n.log)
  {
    if other in stubs && other in env.up && env.syncReply.Some? && !IsEntireDatabase(env.syncReply.value)
       && env.syncReply.value.recentActions.Some? {
      var asked := n.(outbox := n.outbox + [Message(hosts[other], GetMissingInfoSinceTimestamp(n.latest))]);
      var tail := env.syncReply.value.recentActions.value;
      ReplayOutboxGrows(asked, coordinator, Connected(stubs, env.up), hosts, InAscendingOrder(tail), env);
      if !coordinator {
        ReplayOnReplicaKeepsLatest(asked, Connected(stubs, env.up), hosts, InAscendingOrder(tail), env);
      }
    }
  }

  /** Replaying only appends to the outbox. */
  lemma {:induction false} ReplayOutboxGrows(n: Node, coordinator: bool, targets: set<nat>,
                                             hosts: seq<string>, actions: seq<Action>, env: Env)
    ensures var n' := Replay(n, coordinator, targets, hosts, actions, env);
      |n.outbox| <= |n'.outbox| && n'.outbox[..|n.outbox|] == n.outbox
    decreases |actions|
  {
    if actions != [] {
      var before := Replay(n, coordinator, targets, hosts, actions[..|actions| - 1], env);
      ReplayOutboxGrows(n, coordinator, targets, hosts, actions[..|actions| - 1], env);
      var after := Replay(n, coordinator, targets, hosts, actions, env);
      assert after.outbox[..|before.outbox|] == before.outbox;
      assert after.outbox[..|n.outbox|] == before.outbox[..|n.outbox|];
    }
  }

  lemma {:induction false} TailActionsInOrder(tail: Log, keys: seq<Int32>)
    requires forall i :: 0 <= i < |keys| ==> keys[i] in tail
    ensures |TailActions(tail, keys)| == |keys|
    ensures forall i :: 0 <= i < |keys| ==> TailActions(tail, keys)[i] == tail[keys[i]]
  {
    if keys != [] {
      TailActionsInOrder(tail, keys[..|keys| - 1]);
    }
  }

  /** Replaying one more action is one more `applyAction`. */
  lemma ReplaySnoc(n: Node, coordinator: bool, targets: set<nat>, hosts: seq<string>,
                   actions: seq<Action>, a: Action, env: Env)
    ensures Replay(n, coordinator, targets, hosts, actions + [a], env)
         == ApplyStep(Replay(n, coordinator, targets, hosts, actions, env), coordinator, targets, hosts, a, env)
  {
    assert (actions + [a])[..|actions|] == actions;
  }

  /** Taking the least remaining key moves it from the remaining keys to the visited ones. */
  lemma AscendingSnoc(all: seq<Int32>, done: seq<Int32>, remaining: set<Int32>, m: Int32)
    requires all == done + Ascending(remaining)
    requires m in remaining && forall k :: k in remaining ==> m <= k
    ensures all == (done + [m]) + Ascending(remaining - {m})
  {
    LeastIsTheMinimum(remaining, m);
    assert Ascending(remaining) == [m] + Ascending(remaining - {m});
  }

  lemma TailActionsSnoc(tail: Log, keys: seq<Int32>, k: Int32)
    requires k in tail
    ensures TailActions(tail, keys + [k]) == TailActions(tail, keys) + [tail[k]]
  {
    assert (keys + [k])[..|keys|] == keys;
  }

  /**
   * A tail is replayed one action per entry, each entry once, in strictly
   * ascending timestamp order.
   */
  lemma TailIsReplayedInAscendingOrder(tail: Log)
    ensures var keys := Ascending(tail.Keys);
      && |InAscendingOrder(tail)| == |tail| == |keys|
      && (forall k :: k in tail <==> k in keys)
      && (forall i :: 0 <= i < |keys| ==> InAscendingOrder(tail)[i] == tail[keys[i]])
      && (forall i, j :: 0 <= i < j < |keys| ==> keys[i] < keys[j])
  {
    AscendingListsKeysInOrder(tail.Keys);
    TailActionsInOrder(tail, Ascending(tail.Keys));
  }

  /**
   * The coordinator answers a timestamp its log lacks with the whole table,
   * one with nothing after it with null ("up to date"), and any other with
   * exactly the entries after it.
   */
  lemma MissingInfoChoosesPayload(table: Table, log: Log, t: Int32)
    ensures MissingInfo(table, log, t) == Some(FromAllData(table)) <==> t !in log
    ensures MissingInfo(table, log, t).None? <==> t in log && forall k :: k in log ==> k <= t
    ensures t in log && (exists k :: k in log && k > t) ==>
      && MissingInfo(table, log, t).Some?
      && !IsEntireDatabase(MissingInfo(table, log, t).value)
      && MissingInfo(table, log, t).value.recentActions == Some(TailAfter(log, t))
  {
    SinceIsTheTailAfter(log, t);
    if t in log && forall k :: k in log ==> k <= t {
      assert TailAfter(log, t) == map[];
    }
    if t in log && exists k :: k in log && k > t {
      var k :| k in log && k > t;
      assert k in TailAfter(log, t);
    }
  }

  /**
   * A replica that has seen no action asks with -1; when -1 is not a log key
   * (as every clock reading of a coordinator that has not wrapped is at least
   * one), it is sent the whole table.
   */
  lemma FirstSyncIsSnapshot(table: Table, log: Log)
    requires forall k :: k in log ==> k >= 1
    ensures MissingInfo(table, log, -1) == Some(FromAllData(table))
  {
    MissingInfoChoosesPayload(table, log, -1);
  }

  /**
   * A coordinator that started from an empty log with its clock at one or
   * more, and applied actions since without wrapping the clock, still has no
   * key -1: a replica's first sync with it gets the whole table.
   */
  lemma FirstSyncAfterReplayIsSnapshot(n: Node, coordinator: bool, targets: set<nat>, hosts: seq<string>,
                                       actions: seq<Action>, env: Env)
    requires 1 <= n.clock && n.clock + |actions| < INT_MAX && n.log == map[]
    ensures var n' := Replay(n, coordinator, targets, hosts, actions, env);
      MissingInfo(n'.table, n'.log, -1) == Some(FromAllData(n'.table))
  {
    ReplayKeepsLogKeysPositive(n, coordinator, targets, hosts, actions, env);
    var n' := Replay(n, coordinator, targets, hosts, actions, env);
    FirstSyncIsSnapshot(n'.table, n'.log);
  }

  // ---------------------------------------------------------------------------
  // Roles and elections

  /** The fields of the bully election, and which replicas have a stub. */
  datatype Role = Role(
    isCoordinator: bool,
    coordinatorConnection: Option<nat>,
    previousCoordinator: Option<nat>,
    conductingElection: bool,
    lostElection: bool,
    hasStub: set<nat>)

  /**
   * The role fields point into the replica list, and a coordinator keeps no
   * connection to another coordinator.
   */
  predicate RoleFits(r: Role, hostCount: nat)
  {
    && (r.isCoordinator ==> r.coordinatorConnection.None?)
    && (r.coordinatorConnection.Some? ==> r.coordinatorConnection.value < hostCount)
    && (r.previousCoordinator.Some? ==> r.previousCoordinator.value < hostCount)
  }

  /** A server after one step: its node, its role and how the step ended. */
  datatype Step = Step(node: Node, role: Role, outcome: Outcome)

  /** The first position of `h` in `hosts`, if any. */
  function FirstIndexOf(hosts: seq<string>, h: string): (r: Option<nat>)
    ensures r.Some? ==> IsFirstIndex(hosts, h, r.value)
    ensures r.None? <==> h !in hosts
  {
    if hosts == [] then None
    else if hosts[0] == h then Some(0)
    else match FirstIndexOf(hosts[1..], h)
      case None => None
      case Some(i) => Some(i + 1)
  }

  /** `getRequestOriginatorOrDie`'s search: the replica whose hostname is the caller's address. */
  function Originator(hosts: seq<string>, caller: Option<string>): (r: Option<nat>)
    ensures r.Some? ==> caller.Some? && IsFirstIndex(hosts, caller.value, r.value)
    ensures r.None? <==> caller.None? || caller.value !in hosts
  {
    if caller.None? then None else FirstIndexOf(hosts, caller.value)
  }

  /** `ensureConnected` on replica `o`: a stub is obtained when the replica answers. */
  function EnsureConnected(stubs: set<nat>, up: set<nat>, o: nat): set<nat>
  {
    if o in up then stubs + {o} else stubs
  }

  /** `create`, `modify` and `delete`: a tick, `applyAction`, a tick. */
  ghost function ClientUpdate(n: Node, r: Role, hosts: seq<string>, action: Action, env: Env): Node
  {
    var n1 := n.(clock := Inc(n.clock));
    var n2 := ApplyStep(n1, r.isCoordinator, Connected(r.hasStub, env.up), hosts, action, env);
    n2.(clock := Inc(n2.clock))
  }

  /** `syncWithCoordinator`: a tick, then exit unless there is another coordinator to sync with. */
  ghost function SyncWithCoordinatorStep(n: Node, r: Role, hosts: seq<string>, env: Env): SyncStep
    requires RoleFits(r, |hosts|)
  {
    var ticked := n.(clock := Inc(n.clock));
    if r.isCoordinator || r.coordinatorConnection.None? then SyncStep(ticked, ProcessExit)
    else Sync(ticked, false, r.hasStub, hosts, r.coordinatorConnection.value, env)
  }

  /**
   * `playReplicatedAction(action, timestamp, expected)`: observe the stamp, sync
   * with the coordinator when `expected` is not the latest stamp seen, then
   * apply the action and take its stamp as the latest. A failed sync throws
   * out of the call before anything is applied.
   */
  ghost function PlayStep(n: Node, r: Role, hosts: seq<string>, action: Action,
                          timestamp: Int32, expected: Int32, env: Env): SyncStep
    requires RoleFits(r, |hosts|)
  {
    var adjusted := n.(clock := Observe(n.clock, timestamp));
    var synced := if n.latest == expected then SyncStep(adjusted, Completed)
                  else SyncWithCoordinatorStep(adjusted, r, hosts, env);
    if synced.outcome != Completed then synced
    else
      var applied := ApplyStep(synced.node, r.isCoordinator, Connected(r.hasStub, env.up), hosts, action, env);
      SyncStep(applied.(latest := timestamp), Completed)
  }

  /**
   * `initiateElection`: nothing while an election runs. Otherwise a tick;
   * the server gives up any coordinator role and starts a fresh election;
   * it runs the loop of `ElectionRound`; and when the first answer names
   * another host, it takes that host's replica as the previous coordinator,
   * or exits when no replica has that name.
   */
  ghost function InitiateElectionStep(n: Node, r: Role, hosts: seq<string>, me: string, env: Env): Step
  {
    if r.conductingElection then Step(n, r, Completed)
    else
      var t := Inc(n.clock);
      var round := ElectionRound(hosts, r.hasStub, env.up, env.coordinatorHint, me, t, |hosts|);
      var n' := n.(clock := t, outbox := n.outbox + round.calls);
      var r' := r.(isCoordinator := false, coordinatorConnection := None, conductingElection := true,
                   lostElection := false);
      if round.hint.None? || round.hint.value == me then Step(n', r', Completed)
      else match FirstIndexOf(hosts, round.hint.value)
        case None => Step(n', r', ProcessExit)
        case Some(i) => Step(n', r'.(previousCoordinator := Some(i)), Completed)
  }

  /**
   * `becomeCoordinator`: a tick; the server takes the role. When there is a
   * previous coordinator, it ticks again and syncs from it as coordinator. A
   * RemoteException there is swallowed; a null dereference ends the step.
   * Then it forgets the previous coordinator and announces its victory to
   * every connected replica.
   */
  ghost function BecomeCoordinatorStep(n: Node, r: Role, hosts: seq<string>, env: Env): Step
    requires RoleFits(r, |hosts|)
  {
    var n1 := n.(clock := Inc(n.clock));
    var r1 := r.(isCoordinator := true, coordinatorConnection := None);
    var synced := if r.previousCoordinator.None? then SyncStep(n1, Completed)
                  else Sync(n1.(clock := Inc(n1.clock)), true, r.hasStub, hosts, r.previousCoordinator.value, env);
    if synced.outcome == NullDereference then Step(synced.node, r1, NullDereference)
    else
      var n2 := synced.node;
      Step(n2.(outbox := n2.outbox + Broadcast(hosts, Connected(r.hasStub, env.up), |hosts|, ElectionVictory(n2.clock))),
           r1.(previousCoordinator := None), Completed)
  }

  /** `processElectionResult`: the election ends, and the server wins it unless it heard back. */
  ghost function ProcessElectionResultStep(n: Node, r: Role, hosts: seq<string>, env: Env): Step
    requires RoleFits(r, |hosts|)
  {
    var r' := r.(conductingElection := false);
    if r.lostElection then Step(n, r', Completed) else BecomeCoordinatorStep(n, r', hosts, env)
  }

  /**
   * `electionAnnounce(timestamp)`: observe the stamp, find the caller, and
   * unless the caller outranks this server, answer it (when connected) and
   * take the election over.
   */
  ghost function ElectionAnnounceStep(n: Node, r: Role, hosts: seq<string>, me: string,
                                      timestamp: Int32, env: Env): Step
  {
    var n1 := n.(clock := Observe(n.clock, timestamp));
    match Originator(hosts, env.caller)
    case None => Step(n1, r, ProcessExit)
    case Some(o) =>
      if IsBiggerBully(hosts[o], me) then Step(n1, r, Completed)
      else
        var n2 := if o in Connected(r.hasStub, env.up)
                  then n1.(outbox := n1.outbox + [Message(hosts[o], ElectionResponse(n1.clock))], clock := Inc(n1.clock))
                  else n1;
        InitiateElectionStep(n2, r, hosts, me, env)
  }

  /** `electionResponse(timestamp)`: observe the stamp, connect to the caller, and note the lost election. */
  ghost function ElectionResponseStep(n: Node, r: Role, hosts: seq<string>, timestamp: Int32, env: Env): Step
  {
    var n1 := n.(clock := Observe(n.clock, timestamp));
    match Originator(hosts, env.caller)
    case None => Step(n1, r, ProcessExit)
    case Some(o) => Step(n1, r.(hasStub := EnsureConnected(r.hasStub, env.up, o), lostElection := true), Completed)
  }

  /** `updateCoordinatorToOther(o)`: a tick, an empty log, and `o` as coordinator. */
  ghost function UpdateCoordinatorStep(n: Node, r: Role, o: nat): Step
  {
    Step(n.(clock := Inc(n.clock), log := map[]), r.(isCoordinator := false, coordinatorConnection := Some(o)), Completed)
  }

  /** `electionVictory(timestamp)`: observe the stamp, connect to the caller, and follow it. */
  ghost function ElectionVictoryStep(n: Node, r: Role, hosts: seq<string>, timestamp: Int32, env: Env): Step
  {
    var n1 := n.(clock := Observe(n.clock, timestamp));
    match Originator(hosts, env.caller)
    case None => Step(n1, r, ProcessExit)
    case Some(o) => UpdateCoordinatorStep(n1, r.(hasStub := EnsureConnected(r.hasStub, env.up, o)), o)
  }

  /**
   * One run of the coordinator ping task: a replica with a coordinator sends
   * it its clock reading and latest stamp; an unreachable coordinator starts
   * an election; an answer of "behind" starts a sync, and a RemoteException in
   * that sync starts an election. A null stub ends the task with a
   * null dereference.
   */
  ghost function PingTaskStep(n: Node, r: Role, hosts: seq<string>, me: string, env: Env): Step
    requires RoleFits(r, |hosts|)
  {
    if r.isCoordinator || r.coordinatorConnection.None? then Step(n, r, Completed)
    else
      var c := r.coordinatorConnection.value;
      if c !in r.hasStub then Step(n, r, NullDereference)
      else
        var n1 := n.(outbox := n.outbox + [Message(hosts[c], ReceivePing(n.clock, n.latest))]);
        if c !in env.up then InitiateElectionStep(n1, r, hosts, me, env)
        else if env.pingReply then Step(n1, r, Completed)
        else
          var s := SyncWithCoordinatorStep(n1, r, hosts, env);
          if s.outcome == RemoteFailure then InitiateElectionStep(s.node, r, hosts, me, env)
          else Step(s.node, r, s.outcome)
  }

  // ---------------------------------------------------------------------------
  // Properties of the steps

  /**
   * A write from a client on a server that is not the coordinator is applied
   * there only: nothing is sent, logged or stamped.
   */
  lemma ClientUpdateOnReplicaStaysLocal(n: Node, r: Role, hosts: seq<string>, action: Action, env: Env)
    requires !r.isCoordinator
    ensures var n' := ClientUpdate(n, r, hosts, action, env);
      && n'.table == ApplyOn(n.(clock := Inc(n.clock)), action, env).table
      && n'.latest == n.latest && n'.log == n.log && n'.outbox == n.outbox
  {
    var n1 := n.(clock := Inc(n.clock));
    RejectionChangesNothing(n1.table, action, env.stamp(n1.clock).uuid, env.stamp(n1.clock).now, env.caller);
  }

  /**
   * `playReplicatedAction` in sequence (its expected stamp is the latest one
   * seen) syncs nothing and applies the action; whenever it completes, the
   * action's stamp becomes the latest; when it does not, nothing is applied.
   */
  lemma PlayAppliesOrSyncs(n: Node, r: Role, hosts: seq<string>, action: Action,
                           timestamp: Int32, expected: Int32, env: Env)
    requires RoleFits(r, |hosts|)
    ensures var s := PlayStep(n, r, hosts, action, timestamp, expected, env);
      && (s.outcome == Completed ==> s.node.latest == timestamp)
      && (s.outcome != Completed ==> s.node.table == n.table && s.node.latest == n.latest && s.node.log == n.log)
      && (n.latest == expected ==>
            && s.outcome == Completed
            && s.node.table == ApplyOn(n.(clock := Observe(n.clock, timestamp)), action, env).table)
  {
    var adjusted := n.(clock := Observe(n.clock, timestamp));
    if n.latest == expected {
      ApplyStepEffects(adjusted, r.isCoordinator, Connected(r.hasStub, env.up), hosts, action, env);
    } else if !r.isCoordinator && r.coordinatorConnection.Some? {
      SyncOutcomes(adjusted.(clock := Inc(adjusted.clock)), false, r.hasStub, hosts, r.coordinatorConnection.value, env);
    }
  }

  /**
   * A replica that receives an action out of sequence first asks its
   * coordinator for what it missed since its latest stamp.
   */
  lemma PlayOutOfSequenceAsksCoordinator(n: Node, r: Role, hosts: seq<string>, action: Action,
                                         timestamp: Int32, expected: Int32, env: Env)
    requires RoleFits(r, |hosts|)
    requires n.latest != expected && !r.isCoordinator && r.coordinatorConnection.Some?
    requires r.coordinatorConnection.value in r.hasStub
    ensures var s := PlayStep(n, r, hosts, action, timestamp, expected, env);
      && |s.node.outbox| > |n.outbox|
      && s.node.outbox[|n.outbox|] == Message(hosts[r.coordinatorConnection.value], GetMissingInfoSinceTimestamp(n.latest))
  {
    var adjusted := n.(clock := Observe(n.clock, timestamp));
    var ticked := adjusted.(clock := Inc(adjusted.clock));
    var c := r.coordinatorConnection.value;
    SyncOutcomes(ticked, false, r.hasStub, hosts, c, env);
    var synced := Sync(ticked, false, r.hasStub, hosts, c, env);
    var s := PlayStep(n, r, hosts, action, timestamp, expected, env);
    if synced.outcome == Completed {
      ApplyStepEffects(synced.node, false, Connected(r.hasStub, env.up), hosts, action, env);
    }
    assert s.node.outbox == synced.node.outbox;
    var m := Message(hosts[c], GetMissingInfoSinceTimestamp(n.latest));
    assert synced.node.outbox[..|n.outbox| + 1] == n.outbox + [m];
    assert synced.node.outbox[|n.outbox|] == (n.outbox + [m])[|n.outbox|];
  }

  /**
   * `initiateElection` does nothing while an election runs. Otherwise it
   * gives up the coordinator role, starts a fresh election, leaves the table,
   * the log and the latest stamp alone, and announces the election exactly to
   * the replicas with a stub whose hostname compares greater than its own.
   * A coordinator address learnt in the round that is not its own names the
   * previous coordinator, and one that names no replica makes it exit.
   */
  lemma InitiateElectionAnnouncesUpwards(n: Node, r: Role, hosts: seq<string>, me: string, env: Env)
    ensures var s := InitiateElectionStep(n, r, hosts, me, env);
      var hint := ElectionRound(hosts, r.hasStub, env.up, env.coordinatorHint, me, Inc(n.clock), |hosts|).hint;
      && (r.conductingElection ==> s == Step(n, r, Completed))
      && (!r.conductingElection ==>
            && (hint.None? || hint.value == me ==>
                  s.outcome == Completed && s.role.previousCoordinator == r.previousCoordinator)
            && (hint.Some? && hint.value != me ==>
                  && (s.outcome == ProcessExit <==> FirstIndexOf(hosts, hint.value).None?)
                  && (s.outcome != ProcessExit ==>
                        s.outcome == Completed && s.role.previousCoordinator == FirstIndexOf(hosts, hint.value)))
            && !s.role.isCoordinator && s.role.coordinatorConnection.None?
            && s.role.conductingElection && !s.role.lostElection && s.role.hasStub == r.hasStub
            && s.node.clock == Inc(n.clock)
            && s.node.table == n.table && s.node.log == n.log && s.node.latest == n.latest
            && |n.outbox| <= |s.node.outbox| && s.node.outbox[..|n.outbox|] == n.outbox
            && (forall m :: m in s.node.outbox[|n.outbox|..] && m.call.ElectionAnnounce? ==>
                  m.call.timestamp == s.node.clock &&
                  exists i :: 0 <= i < |hosts| && i in r.hasStub && hosts[i] == m.to && IsBiggerBully(hosts[i], me))
            && (forall i :: 0 <= i < |hosts| && i in r.hasStub && IsBiggerBully(hosts[i], me) ==>
                  Message(hosts[i], ElectionAnnounce(s.node.clock)) in s.node.outbox[|n.outbox|..]))
  {
    if !r.conductingElection {
      var t := Inc(n.clock);
      ElectionAnnouncesToBiggerBullies(hosts, r.hasStub, env.up, env.coordinatorHint, me, t, |hosts|);
      var round := ElectionRound(hosts, r.hasStub, env.up, env.coordinatorHint, me, t, |hosts|);
      var s := InitiateElectionStep(n, r, hosts, me, env);
      assert s.node.outbox == n.outbox + round.calls;
      assert s.node.outbox[|n.outbox|..] == round.calls;
    }
  }

  /**
   * `processElectionResult` always ends the election; a server that heard
   * back from a bigger bully changes nothing else, and one that did not
   * becomes the coordinator. With no previous coordinator to sync from, it
   * then announces its victory exactly to the connected replicas.
   */
  lemma ProcessElectionResultDecides(n: Node, r: Role, hosts: seq<string>, env: Env)
    requires RoleFits(r, |hosts|)
    ensures var s := ProcessElectionResultStep(n, r, hosts, env);
      && !s.role.conductingElection
      && (r.lostElection ==> s == Step(n, r.(conductingElection := false), Completed))
      && (!r.lostElection ==>
            && s.role.isCoordinator && s.role.coordinatorConnection.None?
            && (s.outcome == Completed ==> s.role.previousCoordinator.None?)
            && (s.outcome != Completed ==> s.outcome == NullDereference && s.role.previousCoordinator == r.previousCoordinator))
      && (!r.lostElection && r.previousCoordinator.None? ==>
            && s.outcome == Completed
            && s.node == n.(clock := Inc(n.clock),
                            outbox := n.outbox + Broadcast(hosts, Connected(r.hasStub, env.up), |hosts|,
                                                          ElectionVictory(Inc(n.clock)))))
  {
    if !r.lostElection && r.previousCoordinator.Some? {
      SyncOutcomes(n.(clock := Inc(Inc(n.clock))), true, r.hasStub, hosts, r.previousCoordinator.value, env);
    }
  }

  /**
   * `becomeCoordinator` with a previous coordinator: after a second tick it
   * asks that server, as coordinator, for what came after its latest stamp,
   * so replayed actions are stamped, logged and sent on. A RemoteException
   * there is swallowed and the victory is still announced; a missing stub or
   * a null answer ends the step with a null dereference.
   */
  lemma BecomeCoordinatorSyncsFromPrevious(n: Node, r: Role, hosts: seq<string>, env: Env)
    requires RoleFits(r, |hosts|) && r.previousCoordinator.Some?
    ensures var p := r.previousCoordinator.value;
      var s := BecomeCoordinatorStep(n, r, hosts, env);
      var w := Sync(n.(clock := Inc(Inc(n.clock))), true, r.hasStub, hosts, p, env);
      var victory := Broadcast(hosts, Connected(r.hasStub, env.up), |hosts|, ElectionVictory(w.node.clock));
      var request := Message(hosts[p], GetMissingInfoSinceTimestamp(n.latest));
      && s.role.isCoordinator && s.role.coordinatorConnection.None?
      && (s.outcome == NullDereference <==>
            p !in r.hasStub ||
            (p in env.up && (env.syncReply.None? ||
                             (!IsEntireDatabase(env.syncReply.value) && env.syncReply.value.recentActions.None?))))
      && (s.outcome != NullDereference ==>
            && s.outcome == Completed
            && s.role == r.(isCoordinator := true, coordinatorConnection := None, previousCoordinator := None)
            && s.node == w.node.(outbox := w.node.outbox + victory))
      && (p in r.hasStub ==>
            |s.node.outbox| > |n.outbox| && s.node.outbox[..|n.outbox| + 1] == n.outbox + [request])
      && (p in r.hasStub && p !in env.up ==>
            && s.outcome == Completed
            && s.node == n.(clock := Inc(Inc(n.clock)), outbox := n.outbox + [request] + victory))
      && (s.outcome == Completed && p in env.up && IsEntireDatabase(env.syncReply.value) ==>
            s.node.table == env.syncReply.value.allData.value)
  {
    var p := r.previousCoordinator.value;
    var n2 := n.(clock := Inc(Inc(n.clock)));
    SyncOutcomes(n2, true, r.hasStub, hosts, p, env);
    var w := Sync(n2, true, r.hasStub, hosts, p, env);
    var s := BecomeCoordinatorStep(n, r, hosts, env);
    if s.outcome != NullDereference {
      var victory := Broadcast(hosts, Connected(r.hasStub, env.up), |hosts|, ElectionVictory(w.node.clock));
      assert s.node.outbox == w.node.outbox + victory;
      if p in r.hasStub {
        assert s.node.outbox[..|n.outbox| + 1] == w.node.outbox[..|n.outbox| + 1];
      }
    }
  }

  /**
   * A victory message from a known replica makes the server follow it: the
   * log is cleared, the coordinator role given up, and the caller taken as
   * coordinator; from an unknown caller the server exits.
   */
  lemma VictoryFollowsTheCaller(n: Node, r: Role, hosts: seq<string>, timestamp: Int32, env: Env)
    ensures var s := ElectionVictoryStep(n, r, hosts, timestamp, env);
      && (s.outcome == ProcessExit <==> Originator(hosts, env.caller).None?)
      && (s.outcome != ProcessExit ==>
            && s.outcome == Completed
            && s.node.log == map[] && (forall t :: t !in s.node.log)
            && !s.role.isCoordinator
            && s.role.coordinatorConnection == Originator(hosts, env.caller)
            && s.role.conductingElection == r.conductingElection
            && s.role.lostElection == r.lostElection
            && s.node.table == n.table && s.node.latest == n.latest && s.node.outbox == n.outbox
            && s.node.clock == Inc(Observe(n.clock, timestamp)))
  {
  }

  /**
   * An election response from a known replica marks the election lost and
   * changes no other role field but the caller's stub.
   */
  lemma ResponseLosesTheElection(n: Node, r: Role, hosts: seq<string>, timestamp: Int32, env: Env)
    ensures var s := ElectionResponseStep(n, r, hosts, timestamp, env);
      && (s.outcome == ProcessExit <==> Originator(hosts, env.caller).None?)
      && (s.outcome != ProcessExit ==>
            && s.role.lostElection
            && s.role == r.(lostElection := true, hasStub := s.role.hasStub)
            && r.hasStub <= s.role.hasStub
            && (Originator(hosts, env.caller).value in env.up ==> Originator(hosts, env.caller).value in s.role.hasStub)
            && s.node == n.(clock := Observe(n.clock, timestamp)))
  {
  }

  /** What follows a prefix and one more message is that message and what follows the longer prefix. */
  lemma AnnouncementsAfterResponse(outbox: seq<Message>, prefix: seq<Message>, m: Message)
    requires |prefix| + 1 <= |outbox| && outbox[..|prefix| + 1] == prefix + [m]
    ensures outbox[|prefix|..] == [m] + outbox[|prefix| + 1..]
  {
    assert outbox[|prefix|] == m;
  }

  /**
   * An announcement from a replica that outranks this server changes nothing
   * but the clock. One from a weaker replica is answered when that replica is
   * connected, and (unless an election already runs) starts this server's own
   * election. From an unknown caller the server exits.
   */
  lemma AnnounceFromWeakerTakesOver(n: Node, r: Role, hosts: seq<string>, me: string, timestamp: Int32, env: Env)
    ensures var s := ElectionAnnounceStep(n, r, hosts, me, timestamp, env);
      Originator(hosts, env.caller).None? ==>
        s == Step(n.(clock := Observe(n.clock, timestamp)), r, ProcessExit)
    ensures Originator(hosts, env.caller).Some? ==>
      var o := Originator(hosts, env.caller).value;
      var s := ElectionAnnounceStep(n, r, hosts, me, timestamp, env);
      && (IsBiggerBully(hosts[o], me) ==>
            s == Step(n.(clock := Observe(n.clock, timestamp)), r, Completed))
      && (!IsBiggerBully(hosts[o], me) ==>
            && s.role.conductingElection
            && (r.conductingElection ==> s.role == r)
            && (!r.conductingElection ==>
                  && !s.role.isCoordinator && s.role.coordinatorConnection.None? && !s.role.lostElection
                  && s.role.hasStub == r.hasStub
                  && (forall m :: m in s.node.outbox[|n.outbox|..] && m.call.ElectionAnnounce? ==>
                        m.call.timestamp == s.node.clock &&
                        exists i :: 0 <= i < |hosts| && i in r.hasStub && hosts[i] == m.to && IsBiggerBully(hosts[i], me))
                  && (forall i :: 0 <= i < |hosts| && i in r.hasStub && IsBiggerBully(hosts[i], me) ==>
                        Message(hosts[i], ElectionAnnounce(s.node.clock)) in s.node.outbox[|n.outbox|..]))
            && |n.outbox| <= |s.node.outbox|
            && (o in Connected(r.hasStub, env.up) ==>
                  |s.node.outbox| > |n.outbox| &&
                  s.node.outbox[|n.outbox|] == Message(hosts[o], ElectionResponse(Observe(n.clock, timestamp)))))
  {
    if Originator(hosts, env.caller).Some? && !IsBiggerBully(hosts[Originator(hosts, env.caller).value], me) {
      var o := Originator(hosts, env.caller).value;
      var n1 := n.(clock := Observe(n.clock, timestamp));
      var n2 := if o in Connected(r.hasStub, env.up)
                then n1.(outbox := n1.outbox + [Message(hosts[o], ElectionResponse(n1.clock))], clock := Inc(n1.clock))
                else n1;
      InitiateElectionAnnouncesUpwards(n2, r, hosts, me, env);
      var s := ElectionAnnounceStep(n, r, hosts, me, timestamp, env);
      assert s == InitiateElectionStep(n2, r, hosts, me, env);
      if o in Connected(r.hasStub, env.up) {
        assert s.node.outbox[..|n2.outbox|] == n2.outbox;
        assert s.node.outbox[|n.outbox|] == n2.outbox[|n.outbox|];
        if !r.conductingElection {
          AnnouncementsAfterResponse(s.node.outbox, n.outbox, Message(hosts[o], ElectionResponse(n1.clock)));
        }
      }
    }
  }

  /**
   * The ping task: a coordinator, or a server without one, does nothing; a
   * replica pings its coordinator with its clock and latest stamp; an answer
   * of "up to date" ends the task there; an answer of "behind" runs
   * `syncWithCoordinator`, which cannot fail remotely since the coordinator
   * has just answered; an unreachable coordinator starts an election. A
   * coordinator without a stub is a null dereference.
   */
  lemma PingTaskCases(n: Node, r: Role, hosts: seq<string>, me: string, env: Env)
    requires RoleFits(r, |hosts|)
    ensures var s := PingTaskStep(n, r, hosts, me, env);
      && (r.isCoordinator || r.coordinatorConnection.None? ==> s == Step(n, r, Completed))
      && (!r.isCoordinator && r.coordinatorConnection.Some? && r.coordinatorConnection.value !in r.hasStub ==>
            s == Step(n, r, NullDereference))
      && (!r.isCoordinator && r.coordinatorConnection.Some? && r.coordinatorConnection.value in r.hasStub ==>
            var c := r.coordinatorConnection.value;
            var ping := Message(hosts[c], ReceivePing(n.clock, n.latest));
            && |s.node.outbox| > |n.outbox| && s.node.outbox[|n.outbox|] == ping
            && (c in env.up && env.pingReply ==>
                  s == Step(n.(outbox := n.outbox + [ping]), r, Completed))
            && (c in env.up && !env.pingReply ==>
                  var w := SyncWithCoordinatorStep(n.(outbox := n.outbox + [ping]), r, hosts, env);
                  && w.outcome != RemoteFailure
                  && s == Step(w.node, r, w.outcome))
            && (c !in env.up && !r.conductingElection ==>
                  s.role.conductingElection && !s.role.isCoordinator && s.role.coordinatorConnection.None?))
  {
    if !r.isCoordinator && r.coordinatorConnection.Some? && r.coordinatorConnection.value in r.hasStub {
      var c := r.coordinatorConnection.value;
      var ping := Message(hosts[c], ReceivePing(n.clock, n.latest));
      var n1 := n.(outbox := n.outbox + [ping]);
      var s := PingTaskStep(n, r, hosts, me, env);
      if c !in env.up {
        InitiateElectionAnnouncesUpwards(n1, r, hosts, me, env);
      } else if !env.pingReply {
        var ticked := n1.(clock := Inc(n1.clock));
        SyncOutcomes(ticked, false, r.hasStub, hosts, c, env);
        var synced := Sync(ticked, false, r.hasStub, hosts, c, env);
        assert synced.node.outbox[..|n1.outbox|] == n1.outbox;
        assert synced.outcome != RemoteFailure;
      }
      assert s.node.outbox[..|n1.outbox|] == n1.outbox;
      assert s.node.outbox[|n.outbox|] == n1.outbox[|n.outbox|];
    }
  }
}
