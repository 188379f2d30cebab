/**
 * One ID server (src/Server/IdServer.java) as an object whose methods change
 * its fields in place. Every remote call it makes is appended to `outbox`;
 * what the other servers and the RMI runtime answer comes in as an `Env`.
 * Each method is proved to take the server from its state before the call to
 * the state a function of module ServerSteps computes.
 */
module IdServers {

  import opened Wrappers
  import opened JavaInt
  import opened Actions
  import opened ErrorTypes
  import opened ServerResponses
  import opened LoginInfos
  import opened IdentityTables
  import opened ActionLogs
  import opened SyncInfos
  import opened LamportClocks
  import opened Bully
  import opened Replicas
  import opened ServerSteps

  class IdServer {
    /** `myHostname.getHostAddress()`. */
    const myHostname: string
    /** The hostnames of `replicaConnections`, in their order; replicas are named by index. */
    const replicaHostnames: seq<string>
    const clock: LamportClock
    const actionLog: ActionLog

    var loginData: Table
    /** The replicas whose `serverStub` is not null. */
    var hasStub: set<nat>
    var coordinatorConnection: Option<nat>
    var isCoordinator: bool
    var previousCoordinator: Option<nat>
    var latestActionTimestamp: Int32
    var conductingElection: bool
    var lostElection: bool
    /** The calls made on other servers, oldest first. */
    var outbox: seq<Message>

    ghost predicate Valid()
      reads this, actionLog
    {
      && actionLog.capacity == ACTION_LOG_SIZE
      && actionLog.Valid()
      && RoleFits(RoleState(), |replicaHostnames|)
    }

    ghost function State(): Node
      reads this, clock, actionLog
    {
      Node(loginData, clock.timestamp, latestActionTimestamp, actionLog.log, outbox)
    }

    ghost function RoleState(): Role
      reads this
    {
      Role(isCoordinator, coordinatorConnection, previousCoordinator, conductingElection, lostElection, hasStub)
    }

    /**
     * Start-up up to the election: the saved table, one tick for each RMI
     * binding that succeeded, the replica list without the addresses that
     * could be this server, a stub for each listed replica that answers, and
     * the start-up tick. The caller then runs `InitiateElection`.
     */
    constructor (myHostname: string, replicas: seq<string>, savedData: Table,
                 clientBound: bool, serverBound: bool, up: set<nat>)
      ensures Valid()
      ensures this.myHostname == myHostname
      ensures replicaHostnames == KeptReplicas(replicas, myHostname)
      ensures hasStub == set i: nat | i < |replicaHostnames| && i in up
      ensures State() == Node(savedData, 2 + (if clientBound then 1 else 0) + (if serverBound then 1 else 0),
                              -1, map[], [])
      ensures RoleState() == Role(false, None, None, false, false, hasStub)
    {
      this.myHostname := myHostname;
      clock := new LamportClock();
      loginData := savedData;
      actionLog := new ActionLog(ACTION_LOG_SIZE);
      var kept, stubs := ConnectToReplicas(replicas, myHostname, up);
      replicaHostnames := kept;
      hasStub := stubs;
      coordinatorConnection := None;
      isCoordinator := false;
      previousCoordinator := None;
      latestActionTimestamp := -1;
      conductingElection := false;
      lostElection := false;
      outbox := [];
      new;
      if clientBound {
        clock.IncrementForEvent();
      }
      if serverBound {
        clock.IncrementForEvent();
      }
      clock.IncrementForEvent();
    }

    // -------------------------------------------------------------------------
    // Applying actions

    /** Calls `playReplicatedAction` on every connected replica, in list order. */
    method CopyActionToReplicas(action: Action, timestamp: Int32, previousActionTimestamp: Int32, env: Env)
      modifies this
      ensures State() == old(State()).(outbox := old(outbox) + Broadcast(replicaHostnames, Connected(hasStub, env.up),
        |replicaHostnames|, Call.PlayReplicatedAction(action, timestamp, previousActionTimestamp)))
      ensures RoleState() == old(RoleState())
    {
      var call := Call.PlayReplicatedAction(action, timestamp, previousActionTimestamp);
      var i := 0;
      while i < |replicaHostnames|
        invariant 0 <= i <= |replicaHostnames|
        invariant State() == old(State()).(outbox := outbox)
        invariant RoleState() == old(RoleState())
        invariant outbox == old(outbox) + Broadcast(replicaHostnames, Connected(hasStub, env.up), i, call)
      {
        if i in hasStub && i in env.up {
          outbox := outbox + [Message(replicaHostnames[i], call)];
        }
        i := i + 1;
      }
    }

    method ApplyAction(action: Action, env: Env) returns (response: ServerResponse)
      requires Valid()
      modifies this, clock, actionLog
      ensures Valid()
      ensures response == ApplyOn(old(State()), action, env).response
      ensures State() == ApplyStep(old(State()), old(isCoordinator), Connected(hasStub, env.up),
                                   replicaHostnames, action, env)
      ensures RoleState() == old(RoleState())
    {
      var stamp := env.stamp(clock.timestamp);
      var password := action.password;
      match action.kind {
        case CREATE =>
          if action.loginName in loginData {
            return ErrorResponse(NameCollision);
          }
          var info := NewLoginInfo(action.loginName, action.data, password, env.caller, stamp.uuid, stamp.now);
          loginData := loginData[action.loginName := info];
          response := TextResponse(info.uuid);
        case MODIFY =>
          var oldLoginName, newLoginName := action.loginName, action.data.value;
          if oldLoginName !in loginData {
            return ErrorResponse(NoSuchUser);
          } else if loginData[oldLoginName].password != password {
            return ErrorResponse(IncorrectPassword);
          } else if newLoginName in loginData {
            return ErrorResponse(NameCollision);
          }
          var info := loginData[oldLoginName];
          loginData := loginData - {oldLoginName};
          loginData := loginData[newLoginName := ChangeLoginName(info, newLoginName)];
          response := ErrorResponse(NoError);
        case DELETE =>
          var deleteLoginName := action.loginName;
          if deleteLoginName !in loginData {
            return ErrorResponse(NoSuchUser);
          } else if loginData[deleteLoginName].password != password {
            return ErrorResponse(IncorrectPassword);
          }
          loginData := loginData - {deleteLoginName};
          response := ErrorResponse(NoError);
      }
      clock.IncrementForEvent();
      if isCoordinator {
        var previousTimestamp := latestActionTimestamp;
        latestActionTimestamp := clock.GetCurrent();
        CopyActionToReplicas(action, latestActionTimestamp, previousTimestamp, env);
        actionLog.AppendAction(latestActionTimestamp, action);
      }
    }

    /** `create`: the real name may be null. */
    method Create(loginName: string, realName: Option<string>, password: string, env: Env)
      returns (response: ServerResponse)
      requires Valid()
      modifies this, clock, actionLog
      ensures Valid()
      ensures var action := ActionObject(CREATE, loginName, password, realName);
        && response == ApplyOn(old(State()).(clock := Inc(old(clock.timestamp))), action, env).response
        && State() == ClientUpdate(old(State()), old(RoleState()), replicaHostnames, action, env)
      ensures RoleState() == old(RoleState())
    {
      clock.IncrementForEvent();
      var action := ActionObject(CREATE, loginName, password, realName);
      response := ApplyAction(action, env);
      clock.IncrementForEvent();
    }

    method Modify(oldLoginName: string, newLoginName: string, password: string, env: Env)
      returns (response: ServerResponse)
      requires Valid()
      modifies this, clock, actionLog
      ensures Valid()
      ensures var action := ActionObject(MODIFY, oldLoginName, password, Some(newLoginName));
        && response == ApplyOn(old(State()).(clock := Inc(old(clock.timestamp))), action, env).response
        && State() == ClientUpdate(old(State()), old(RoleState()), replicaHostnames, action, env)
      ensures RoleState() == old(RoleState())
    {
      clock.IncrementForEvent();
      var action := ActionObject(MODIFY, oldLoginName, password, Some(newLoginName));
      response := ApplyAction(action, env);
      clock.IncrementForEvent();
    }

    method Delete(loginName: string, password: string, env: Env) returns (response: ServerResponse)
      requires Valid()
      modifies this, clock, actionLog
      ensures Valid()
      ensures var action := ActionObject(DELETE, loginName, password, None);
        && response == ApplyOn(old(State()).(clock := Inc(old(clock.timestamp))), action, env).response
        && State() == ClientUpdate(old(State()), old(RoleState()), replicaHostnames, action, env)
      ensures RoleState() == old(RoleState())
    {
      clock.IncrementForEvent();
      var action := ActionObject(DELETE, loginName, password, None);
      response := ApplyAction(action, env);
      clock.IncrementForEvent();
    }

    // -------------------------------------------------------------------------
    // Queries: two clock ticks and nothing else changes. `order` is the
    // iteration order of the hash map, a listing of its keys.

    method Lookup(loginName: string) returns (response: ServerResponse)
      modifies clock
      ensures response == LookupIn(loginData, loginName)
      ensures clock.timestamp == Inc(Inc(old(clock.timestamp)))
    {
      clock.IncrementForEvent();
      response := LookupIn(loginData, loginName);
      clock.IncrementForEvent();
    }

    method ReverseLookup(uuid: string, order: seq<string>) returns (response: ServerResponse)
      requires Enumerates(order, loginData.Keys)
      modifies clock
      ensures response == ReverseLookupIn(loginData, order, uuid)
      ensures clock.timestamp == Inc(Inc(old(clock.timestamp)))
    {
      clock.IncrementForEvent();
      response := ReverseLookupIn(loginData, order, uuid);
      clock.IncrementForEvent();
    }

    method Get(whatToGet: string, order: seq<string>) returns (response: ServerResponse)
      requires Enumerates(order, loginData.Keys)
      modifies clock
      ensures response == GetIn(loginData, order, whatToGet)
      ensures clock.timestamp == Inc(Inc(old(clock.timestamp)))
    {
      clock.IncrementForEvent();
      response := GetIn(loginData, order, whatToGet);
      clock.IncrementForEvent();
    }

    // -------------------------------------------------------------------------
    // Serving other servers

    /** Reads only: the whole table, null (up to date) or the logged tail. */
    method GetMissingInfoSinceTimestamp(lastActionSeenTimestamp: Int32) returns (info: Option<SyncInfo>)
      ensures info == MissingInfo(loginData, actionLog.log, lastActionSeenTimestamp)
    {
      var catchupActions := actionLog.GetActionsSinceTimestamp(lastActionSeenTimestamp);
      if catchupActions.None? {
        info := Some(FromAllData(loginData));
      } else if |catchupActions.value| == 0 {
        info := None;
      } else {
        info := Some(FromRecentActions(catchupActions));
      }
    }

    /**
     * `syncWithOtherServer(other)`. A tail is replayed by taking its keys in
     * ascending order, as a `SortedMap`'s key set iterates them.
     */
    method SyncWithOtherServer(other: nat, env: Env) returns (outcome: Outcome)
      requires Valid() && other < |replicaHostnames|
      modifies this, clock, actionLog
      ensures Valid()
      ensures SyncStep(State(), outcome) == Sync(old(State()), old(isCoordinator), old(hasStub), replicaHostnames, other, env)
      ensures RoleState() == old(RoleState())
    {
      if other !in hasStub {
        return NullDereference;
      }
      outbox := outbox + [Message(replicaHostnames[other], Call.GetMissingInfoSinceTimestamp(latestActionTimestamp))];
      if other !in env.up {
        return RemoteFailure;
      }
      if env.syncReply.None? {
        return NullDereference;
      }
      var syncInfo := env.syncReply.value;
      if IsEntireDatabase(syncInfo) {
        loginData := syncInfo.allData.value;
        return Completed;
      }
      if syncInfo.recentActions.None? {
        return NullDereference;
      }
      ReplayTail(syncInfo.recentActions.value, env);
      return Completed;
    }

    /** The replay loop of `syncWithOtherServer`: `applyAction` on each entry, in ascending key order. */
    method ReplayTail(tail: Log, env: Env)
      requires Valid()
      modifies this, clock, actionLog
      ensures Valid()
      ensures State() == Replay(old(State()), old(isCoordinator), Connected(hasStub, env.up), replicaHostnames,
                                InAscendingOrder(tail), env)
      ensures RoleState() == old(RoleState())
    {
      ghost var start := State();
      ghost var done: seq<Int32> := [];
      var remaining := tail.Keys;
      while remaining != {}
        invariant Valid()
        invariant remaining <= tail.Keys
        invariant Ascending(tail.Keys) == done + Ascending(remaining)
        invariant State() == Replay(start, isCoordinator, Connected(hasStub, env.up), replicaHostnames,
                                    TailActions(tail, done), env)
        invariant RoleState() == old(RoleState())
        decreases |remaining|
      {
        LeastExists(remaining);
        var timestamp :| timestamp in remaining && forall k :: k in remaining ==> timestamp <= k;
        AscendingSnoc(Ascending(tail.Keys), done, remaining, timestamp);
        TailActionsSnoc(tail, done, timestamp);
        ReplaySnoc(start, isCoordinator, Connected(hasStub, env.up), replicaHostnames,
                   TailActions(tail, done), tail[timestamp], env);
        var ignored := ApplyAction(tail[timestamp], env);
        done := done + [timestamp];
        remaining := remaining - {timestamp};
      }
      assert done + [] == done;
    }

    method SyncWithCoordinator(env: Env) returns (outcome: Outcome)
      requires Valid()
      modifies this, clock, actionLog
      ensures Valid()
      ensures SyncStep(State(), outcome) == SyncWithCoordinatorStep(old(State()), old(RoleState()), replicaHostnames, env)
      ensures RoleState() == old(RoleState())
    {
      clock.IncrementForEvent();
      if isCoordinator || coordinatorConnection.None? {
        return ProcessExit;
      }
      outcome := SyncWithOtherServer(coordinatorConnection.value, env);
    }

    method PlayReplicatedAction(action: Action, actionTimestamp: Int32, expectedLastTimestamp: Int32, env: Env)
      returns (outcome: Outcome)
      requires Valid()
      modifies this, clock, actionLog
      ensures Valid()
      ensures SyncStep(State(), outcome) == PlayStep(old(State()), old(RoleState()), replicaHostnames, action,
                                                      actionTimestamp, expectedLastTimestamp, env)
      ensures RoleState() == old(RoleState())
    {
      clock.AdjustToIncomingMessage(actionTimestamp);
      if latestActionTimestamp != expectedLastTimestamp {
        outcome := SyncWithCoordinator(env);
        if outcome != Completed {
          return;
        }
      }
      var ignored := ApplyAction(action, env);
      latestActionTimestamp := actionTimestamp;
      outcome := Completed;
    }

    /**
     * `receivePing`: the originator is looked up first (the exit path), then
     * the stamp observed; the answer is whether the caller has seen the same
     * latest action.
     */
    method ReceivePing(timestamp: Int32, replicaLastActionTimestamp: Int32, env: Env)
      returns (upToDate: bool, outcome: Outcome)
      modifies clock
      ensures outcome == ProcessExit <==> Originator(replicaHostnames, env.caller).None?
      ensures outcome != ProcessExit ==>
        && outcome == Completed
        && clock.timestamp == Observe(old(clock.timestamp), timestamp)
        && (upToDate <==> replicaLastActionTimestamp == latestActionTimestamp)
      ensures outcome == ProcessExit ==> clock.timestamp == old(clock.timestamp)
    {
      var originator := RequestOriginator(env);
      if originator.None? {
        return false, ProcessExit;
      }
      clock.AdjustToIncomingMessage(timestamp);
      return replicaLastActionTimestamp == latestActionTimestamp, Completed;
    }

    // -------------------------------------------------------------------------
    // The bully election

    /**
     * The loop of `initiateElection`: ask each replica with a stub for the
     * previous coordinator until one names it, and announce the election to
     * each one with a stub that outranks this server.
     */
    method CanvassReplicas(timestamp: Int32, env: Env) returns (previousCoordinatorHostname: Option<string>)
      modifies this
      ensures var round := ElectionRound(replicaHostnames, hasStub, env.up, env.coordinatorHint, myHostname,
                                         timestamp, |replicaHostnames|);
        && State() == old(State()).(outbox := old(outbox) + round.calls)
        && previousCoordinatorHostname == round.hint
      ensures RoleState() == old(RoleState())
    {
      previousCoordinatorHostname := None;
      var i := 0;
      while i < |replicaHostnames|
        invariant 0 <= i <= |replicaHostnames|
        invariant State() == old(State()).(outbox := outbox)
        invariant RoleState() == old(RoleState())
        invariant outbox == old(outbox) + ElectionRound(replicaHostnames, hasStub, env.up, env.coordinatorHint,
                                                        myHostname, timestamp, i).calls
        invariant previousCoordinatorHostname == ElectionRound(replicaHostnames, hasStub, env.up,
                                                               env.coordinatorHint, myHostname, timestamp, i).hint
      {
        if i in hasStub {
          ghost var done := ElectionRound(replicaHostnames, hasStub, env.up, env.coordinatorHint,
                                          myHostname, timestamp, i).calls;
          var asked: seq<Message> := [];
          if previousCoordinatorHostname.None? {
            asked := [Message(replicaHostnames[i], Call.GetPreviousCoordinatorAddress)];
            if i in env.up {
              previousCoordinatorHostname := env.coordinatorHint(i);
            }
          }
          var announced: seq<Message> := [];
          if IsBiggerBully(replicaHostnames[i], myHostname) {
            announced := [Message(replicaHostnames[i], Call.ElectionAnnounce(timestamp))];
          }
          assert old(outbox) + done + (asked + announced) == old(outbox) + (done + asked + announced);
          outbox := outbox + (asked + announced);
        }
        i := i + 1;
      }
    }

    /** `awaitElectionWin` is left to the caller, which runs `ProcessElectionResult` later. */
    method InitiateElection(env: Env) returns (outcome: Outcome)
      requires Valid()
      modifies this, clock
      ensures Valid()
      ensures Step(State(), RoleState(), outcome)
           == InitiateElectionStep(old(State()), old(RoleState()), replicaHostnames, myHostname, env)
    {
      if conductingElection {
        return Completed;
      }
      clock.IncrementForEvent();
      isCoordinator := false;
      coordinatorConnection := None;
      conductingElection := true;
      lostElection := false;
      var now := clock.GetCurrent();
      var previousCoordinatorHostname := CanvassReplicas(now, env);
      if previousCoordinatorHostname.Some? && previousCoordinatorHostname.value != myHostname {
        var found := IndexOfHost(previousCoordinatorHostname.value);
        if found.None? {
          return ProcessExit;
        }
        previousCoordinator := found;
      }
      outcome := Completed;
    }

    method InitiateElectionIfNotRunning(env: Env) returns (outcome: Outcome)
      requires Valid()
      modifies this, clock
      ensures Valid()
      ensures Step(State(), RoleState(), outcome)
           == InitiateElectionStep(old(State()), old(RoleState()), replicaHostnames, myHostname, env)
    {
      outcome := Completed;
      if !conductingElection {
        outcome := InitiateElection(env);
      }
    }

    /** Calls `electionVictory` on each replica of `active`, in order. */
    method ProclaimVictory(active: seq<nat>)
      requires forall i :: 0 <= i < |active| ==> active[i] < |replicaHostnames|
      modifies this
      ensures State() == old(State()).(outbox := old(outbox) + CallsTo(replicaHostnames, active, Call.ElectionVictory(clock.timestamp)))
      ensures RoleState() == old(RoleState())
    {
      var i := 0;
      while i < |active|
        invariant 0 <= i <= |active|
        invariant State() == old(State()).(outbox := old(outbox) + CallsTo(replicaHostnames, active[..i], Call.ElectionVictory(clock.timestamp)))
        invariant RoleState() == old(RoleState())
      {
        var now := clock.GetCurrent();
        assert active[..i + 1][..i] == active[..i];
        outbox := outbox + [Message(replicaHostnames[active[i]], Call.ElectionVictory(now))];
        i := i + 1;
      }
      assert active[..|active|] == active;
    }

    method BecomeCoordinator(env: Env) returns (outcome: Outcome)
      requires Valid()
      modifies this, clock, actionLog
      ensures Valid()
      ensures Step(State(), RoleState(), outcome)
           == BecomeCoordinatorStep(old(State()), old(RoleState()), replicaHostnames, env)
    {
      clock.IncrementForEvent();
      isCoordinator := true;
      coordinatorConnection := None;
      if previousCoordinator.Some? {
        clock.IncrementForEvent();
        var synced := SyncWithOtherServer(previousCoordinator.value, env);
        if synced == NullDereference {
          return NullDereference;
        }
      }
      previousCoordinator := None;
      var active := GetActiveReplicas(env);
      BroadcastCallsEachTargetOnce(replicaHostnames, Connected(hasStub, env.up), |replicaHostnames|,
                                   Call.ElectionVictory(clock.timestamp));
      ProclaimVictory(active);
      outcome := Completed;
    }

    method ProcessElectionResult(env: Env) returns (outcome: Outcome)
      requires Valid()
      modifies this, clock, actionLog
      ensures Valid()
      ensures Step(State(), RoleState(), outcome)
           == ProcessElectionResultStep(old(State()), old(RoleState()), replicaHostnames, env)
    {
      conductingElection := false;
      outcome := Completed;
      if !lostElection {
        outcome := BecomeCoordinator(env);
      }
    }

    /** `ensureConnected` on replica `o`. */
    method EnsureConnectedTo(o: nat, env: Env)
      modifies this
      ensures hasStub == EnsureConnected(old(hasStub), env.up, o)
      ensures State() == old(State())
      ensures RoleState() == old(RoleState()).(hasStub := hasStub)
    {
      if !(o in hasStub && o in env.up) && o in env.up {
        hasStub := hasStub + {o};
      }
    }

    method ElectionAnnounce(timestamp: Int32, env: Env) returns (outcome: Outcome)
      requires Valid()
      modifies this, clock
      ensures Valid()
      ensures Step(State(), RoleState(), outcome)
           == ElectionAnnounceStep(old(State()), old(RoleState()), replicaHostnames, myHostname, timestamp, env)
    {
      clock.AdjustToIncomingMessage(timestamp);
      var requestOriginator := RequestOriginator(env);
      if requestOriginator.None? {
        return ProcessExit;
      }
      var o := requestOriginator.value;
      outcome := Completed;
      if !IsBiggerBully(replicaHostnames[o], myHostname) {
        if o in hasStub && o in env.up {
          var now := clock.GetCurrent();
          outbox := outbox + [Message(replicaHostnames[o], Call.ElectionResponse(now))];
          clock.IncrementForEvent();
        }
        outcome := InitiateElectionIfNotRunning(env);
      }
    }

    method ElectionResponse(timestamp: Int32, env: Env) returns (outcome: Outcome)
      requires Valid()
      modifies this, clock
      ensures Valid()
      ensures Step(State(), RoleState(), outcome)
           == ElectionResponseStep(old(State()), old(RoleState()), replicaHostnames, timestamp, env)
    {
      clock.AdjustToIncomingMessage(timestamp);
      var requestOriginator := RequestOriginator(env);
      if requestOriginator.None? {
        return ProcessExit;
      }
      EnsureConnectedTo(requestOriginator.value, env);
      lostElection := true;
      outcome := Completed;
    }

    method ElectionVictory(timestamp: Int32, env: Env) returns (outcome: Outcome)
      requires Valid()
      modifies this, clock, actionLog
      ensures Valid()
      ensures Step(State(), RoleState(), outcome)
           == ElectionVictoryStep(old(State()), old(RoleState()), replicaHostnames, timestamp, env)
    {
      clock.AdjustToIncomingMessage(timestamp);
      var requestOriginator := RequestOriginator(env);
      if requestOriginator.None? {
        return ProcessExit;
      }
      EnsureConnectedTo(requestOriginator.value, env);
      UpdateCoordinatorToOther(requestOriginator.value);
      outcome := Completed;
    }

    method UpdateCoordinatorToOther(newCoordinator: nat)
      requires Valid() && newCoordinator < |replicaHostnames|
      modifies this, clock, actionLog
      ensures Valid()
      ensures Step(State(), RoleState(), Completed) == UpdateCoordinatorStep(old(State()), old(RoleState()), newCoordinator)
    {
      clock.IncrementForEvent();
      actionLog.Clear();
      isCoordinator := false;
      coordinatorConnection := Some(newCoordinator);
    }

    // -------------------------------------------------------------------------
    // The coordinator ping task (one run of the timer)

    method CoordinatorPingTask(env: Env) returns (outcome: Outcome)
      requires Valid()
      modifies this, clock, actionLog
      ensures Valid()
      ensures Step(State(), RoleState(), outcome)
           == PingTaskStep(old(State()), old(RoleState()), replicaHostnames, myHostname, env)
    {
      if isCoordinator || coordinatorConnection.None? {
        return Completed;
      }
      var c := coordinatorConnection.value;
      if c !in hasStub {
        return NullDereference;
      }
      var now := clock.GetCurrent();
      outbox := outbox + [Message(replicaHostnames[c], Call.ReceivePing(now, latestActionTimestamp))];
      if c !in env.up {
        outcome := InitiateElectionIfNotRunning(env);
        return;
      }
      if env.pingReply {
        return Completed;
      }
      outcome := SyncWithCoordinator(env);
      if outcome == RemoteFailure {
        outcome := InitiateElectionIfNotRunning(env);
      }
    }

    /**
     * What a coordinator tells a caller that asks for the previous coordinator:
     * its own address, the current coordinator's, or null.
     */
    function GetPreviousCoordinatorAddressActual(): (address: Option<string>)
      reads this
      requires coordinatorConnection.Some? ==> coordinatorConnection.value < |replicaHostnames|
      ensures address.None? <==> !isCoordinator && coordinatorConnection.None?
      ensures isCoordinator ==> address == Some(myHostname)
      ensures !isCoordinator && coordinatorConnection.Some? ==>
        address == Some(replicaHostnames[coordinatorConnection.value])
    {
      if !isCoordinator && coordinatorConnection.None? then None
      else if isCoordinator then Some(myHostname)
      else Some(replicaHostnames[coordinatorConnection.value])
    }

    /** The first replica with hostname `h`, found by walking the list. */
    method IndexOfHost(h: string) returns (r: Option<nat>)
      ensures r == FirstIndexOf(replicaHostnames, h)
    {
      var i := 0;
      while i < |replicaHostnames|
        invariant 0 <= i <= |replicaHostnames|
        invariant forall j :: 0 <= j < i ==> replicaHostnames[j] != h
      {
        if replicaHostnames[i] == h {
          FirstIndexIsUnique(replicaHostnames, h, i);
          return Some(i);
        }
        i := i + 1;
      }
      FirstIndexIsUnique(replicaHostnames, h, 0);
      return None;
    }

    /** `getRequestOriginatorOrDie`'s search; `None` is the path that exits. */
    method RequestOriginator(env: Env) returns (r: Option<nat>)
      ensures r == Originator(replicaHostnames, env.caller)
    {
      if env.caller.None? {
        return None;
      }
      r := IndexOfHost(env.caller.value);
    }

    /** `getActiveReplicas`: the connected replicas, in list order. */
    method GetActiveReplicas(env: Env) returns (active: seq<nat>)
      ensures active == IndicesIn(Connected(hasStub, env.up), |replicaHostnames|)
    {
      active := [];
      var i := 0;
      while i < |replicaHostnames|
        invariant 0 <= i <= |replicaHostnames|
        invariant active == IndicesIn(Connected(hasStub, env.up), i)
      {
        if i in hasStub && i in env.up {
          active := active + [i];
        }
        i := i + 1;
      }
    }
  }

  /**
   * The constructor's loop over the listed replicas: it skips the addresses
   * that could be this server, keeps the others in order, and obtains a stub
   * for each kept replica that answers.
   */
  method ConnectToReplicas(replicas: seq<string>, myHostname: string, up: set<nat>)
    returns (kept: seq<string>, stubs: set<nat>)
    ensures kept == KeptReplicas(replicas, myHostname)
    ensures stubs == set i: nat | i < |kept| && i in up
  {
    kept, stubs := [], {};
    var i := 0;
    while i < |replicas|
      invariant 0 <= i <= |replicas|
      invariant kept == KeptReplicas(replicas[..i], myHostname)
      invariant stubs == set j: nat | j < |kept| && j in up
    {
      assert replicas[..i + 1][..i] == replicas[..i];
      if replicas[i] !in ForbiddenHostnames(myHostname) {
        if |kept| in up {
          stubs := stubs + {|kept|};
        }
        kept := kept + [replicas[i]];
      }
      i := i + 1;
    }
    assert replicas[..|replicas|] == replicas;
  }

  /** A first position of `h` is the one `FirstIndexOf` finds, and there is none when `h` is absent. */
  lemma {:induction false} FirstIndexIsUnique(hosts: seq<string>, h: string, i: nat)
    ensures IsFirstIndex(hosts, h, i) ==> FirstIndexOf(hosts, h) == Some(i)
    ensures (forall j :: 0 <= j < |hosts| ==> hosts[j] != h) ==> FirstIndexOf(hosts, h).None?
  {
    if hosts != [] && hosts[0] != h && i > 0 {
      FirstIndexIsUnique(hosts[1..], h, i - 1);
      if IsFirstIndex(hosts, h, i) {
        assert IsFirstIndex(hosts[1..], h, i - 1) by {
          forall j | 0 <= j < i - 1 ensures hosts[1..][j] != h { assert hosts[1..][j] == hosts[j + 1]; }
        }
      }
    }
    if forall j :: 0 <= j < |hosts| ==> hosts[j] != h {
      assert h !in hosts;
    }
  }
}
