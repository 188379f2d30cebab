/**
 * How a server reaches the other replicas it knows (src/Server/IdServer.java):
 * the list it keeps at startup, and the remote calls it makes on them. A call
 * is recorded when the server makes it on a replica whose stub is set, whether
 * or not the replica then answers.
 */
module Replicas {

  import opened Wrappers
  import opened JavaInt
  import opened Actions
  import opened Bully

  /** The methods of `ReplicaInterface` that a server calls, with their arguments. */
  datatype Call =
    | PlayReplicatedAction(action: Action, actionTimestamp: Int32, expectedLastTimestamp: Int32)
    | GetPreviousCoordinatorAddress
    | ElectionAnnounce(timestamp: Int32)
    | ElectionResponse(timestamp: Int32)
    | ElectionVictory(timestamp: Int32)
    | GetMissingInfoSinceTimestamp(lastActionSeenTimestamp: Int32)
    | ReceivePing(timestamp: Int32, replicaLastActionTimestamp: Int32)

  datatype Message = Message(to: string, call: Call)

  /** The addresses the constructor refuses because they could be this server itself. */
  function ForbiddenHostnames(myHostname: string): seq<string>
  {
    ["127.0.0.1", "127.0.1.1", myHostname]
  }

  /** The replicas the constructor keeps from its list, in their order. */
  function KeptReplicas(replicas: seq<string>, myHostname: string): seq<string>
  {
    if replicas == [] then []
    else
      var last := replicas[|replicas| - 1];
      KeptReplicas(replicas[..|replicas| - 1], myHostname)
        + (if last in ForbiddenHostnames(myHostname) then [] else [last])
  }

  /**
   * The constructor keeps exactly the listed replicas that are not a
   * forbidden address, so it never keeps a loopback address or its own.
   */
  lemma {:induction false} KeptReplicasAreTheAllowed(replicas: seq<string>, myHostname: string)
    ensures forall h :: h in KeptReplicas(replicas, myHostname) <==>
      h in replicas && h !in ForbiddenHostnames(myHostname)
    ensures |KeptReplicas(replicas, myHostname)| <= |replicas|
  {
    if replicas != [] {
      var init := replicas[..|replicas| - 1];
      KeptReplicasAreTheAllowed(init, myHostname);
      assert replicas == init + [replicas[|replicas| - 1]];
    }
  }

  /**
   * The filter keeps the order of the list: filtering a list in two parts is
   * filtering each part (and `KeptSingle` says which single hostnames stay).
   */
  lemma {:induction false} KeptReplicasKeepTheOrder(a: seq<string>, b: seq<string>, myHostname: string)
    ensures KeptReplicas(a + b, myHostname) == KeptReplicas(a, myHostname) + KeptReplicas(b, myHostname)
    decreases |b|
  {
    if b == [] {
      assert a + b == a;
    } else {
      var init, last := b[..|b| - 1], b[|b| - 1];
      var kept := if last in ForbiddenHostnames(myHostname) then [] else [last];
      KeptReplicasKeepTheOrder(a, init, myHostname);
      assert (a + b)[..|a + b| - 1] == a + init;
      assert (a + b)[|a + b| - 1] == last;
      assert KeptReplicas(a + b, myHostname) == KeptReplicas(a + init, myHostname) + kept;
      assert KeptReplicas(b, myHostname) == KeptReplicas(init, myHostname) + kept;
      assert KeptReplicas(a, myHostname) + KeptReplicas(init, myHostname) + kept
          == KeptReplicas(a, myHostname) + (KeptReplicas(init, myHostname) + kept);
    }
  }

  /** A single hostname is kept exactly when it is not a forbidden address. */
  lemma KeptSingle(h: string, myHostname: string)
    ensures KeptReplicas([h], myHostname) == if h in ForbiddenHostnames(myHostname) then [] else [h]
  {
    assert [h][..0] == [];
  }

  /** `i` is the first position of `h` in `hosts`. */
  predicate IsFirstIndex(hosts: seq<string>, h: string, i: nat)
  {
    i < |hosts| && hosts[i] == h && forall j :: 0 <= j < i ==> hosts[j] != h
  }

  /** The indices below `n` that appear in `targets`, in increasing order. */
  function IndicesIn(targets: set<nat>, n: nat): seq<nat>
  {
    if n == 0 then [] else IndicesIn(targets, n - 1) + (if n - 1 in targets then [n - 1] else [])
  }

  /** One call to each replica of `indices`, in that order. */
  function CallsTo(hosts: seq<string>, indices: seq<nat>, call: Call): (r: seq<Message>)
    requires forall i :: 0 <= i < |indices| ==> indices[i] < |hosts|
    ensures |r| == |indices|
    ensures forall i :: 0 <= i < |indices| ==> r[i] == Message(hosts[indices[i]], call)
  {
    if indices == [] then []
    else CallsTo(hosts, indices[..|indices| - 1], call) + [Message(hosts[indices[|indices| - 1]], call)]
  }

  /** The calls of a loop over `hosts[..n]` that calls every replica in `targets`. */
  function Broadcast(hosts: seq<string>, targets: set<nat>, n: nat, call: Call): seq<Message>
    requires n <= |hosts|
  {
    if n == 0 then [] else
      Broadcast(hosts, targets, n - 1, call) + (if n - 1 in targets then [Message(hosts[n - 1], call)] else [])
  }

  /** Every index listed is below `n` and in `targets`. */
  lemma {:induction false} IndicesInBelow(targets: set<nat>, n: nat)
    ensures forall i :: 0 <= i < |IndicesIn(targets, n)| ==> IndicesIn(targets, n)[i] < n && IndicesIn(targets, n)[i] in targets
  {
    if n > 0 {
      IndicesInBelow(targets, n - 1);
    }
  }

  /** The indices below `n` in `targets` are exactly those, each once, in increasing order. */
  lemma {:induction false} IndicesInAreExact(targets: set<nat>, n: nat)
    ensures forall i :: i in IndicesIn(targets, n) <==> i < n && i in targets
    ensures forall i, j :: 0 <= i < j < |IndicesIn(targets, n)| ==> IndicesIn(targets, n)[i] < IndicesIn(targets, n)[j]
  {
    if n > 0 {
      IndicesInAreExact(targets, n - 1);
      IndicesInBelow(targets, n - 1);
      var init, all := IndicesIn(targets, n - 1), IndicesIn(targets, n);
      forall i, j | 0 <= i < j < |all| ensures all[i] < all[j] {
        assert all[i] == init[i];
        if j < |init| {
          assert all[j] == init[j];
        }
      }
    }
  }

  /**
   * A loop over the replicas that calls those in `targets` sends the call to
   * exactly the targets below `n`, once each and in index order: the same
   * calls as one to each replica of the active list.
   */
  lemma {:induction false} BroadcastCallsEachTargetOnce(hosts: seq<string>, targets: set<nat>, n: nat, call: Call)
    requires n <= |hosts|
    ensures forall i :: 0 <= i < |IndicesIn(targets, n)| ==> IndicesIn(targets, n)[i] < |hosts|
    ensures Broadcast(hosts, targets, n, call) == CallsTo(hosts, IndicesIn(targets, n), call)
  {
    IndicesInBelow(targets, n);
    if n > 0 {
      BroadcastCallsEachTargetOnce(hosts, targets, n - 1, call);
      IndicesInBelow(targets, n - 1);
      var init := IndicesIn(targets, n - 1);
      var sent := Broadcast(hosts, targets, n - 1, call);
      if n - 1 in targets {
        var idx := init + [n - 1];
        assert IndicesIn(targets, n) == idx;
        assert Broadcast(hosts, targets, n, call) == sent + [Message(hosts[n - 1], call)];
        assert idx[..|init|] == init;
        assert CallsTo(hosts, idx, call) == CallsTo(hosts, init, call) + [Message(hosts[n - 1], call)];
      } else {
        assert IndicesIn(targets, n) == init;
        assert Broadcast(hosts, targets, n, call) == sent;
      }
    }
  }

  /** The calls made so far by `initiateElection`'s loop, and the coordinator address it has learnt. */
  datatype Round = Round(calls: seq<Message>, hint: Option<string>)

  /**
   * The loop of `initiateElection` over `hosts[..n]`: each replica with a
   * stub is asked for the previous coordinator until one answers with a
   * non-null address, and each with a stub that outranks `me` is told of the
   * election with stamp `timestamp`. `hints[i]` is replica `i`'s answer, heard
   * only from a replica in `up`.
   */
  function ElectionRound(hosts: seq<string>, stubs: set<nat>, up: set<nat>, hints: nat -> Option<string>,
                         me: string, timestamp: Int32, n: nat): Round
    requires n <= |hosts|
  {
    if n == 0 then Round([], None)
    else
      var before := ElectionRound(hosts, stubs, up, hints, me, timestamp, n - 1);
      var i := n - 1;
      if i !in stubs then before
      else
        var asked := if before.hint.None? then [Message(hosts[i], GetPreviousCoordinatorAddress)] else [];
        var hint := if before.hint.None? && i in up then hints(i) else before.hint;
        var announced := if IsBiggerBully(hosts[i], me) then [Message(hosts[i], ElectionAnnounce(timestamp))] else [];
        Round(before.calls + asked + announced, hint)
  }

  /**
   * `initiateElection` announces the election exactly to the replicas with a
   * stub whose hostname compares greater than its own, with its clock
   * reading, and asks nothing but announcements and coordinator queries.
   */
  lemma {:induction false} ElectionAnnouncesToBiggerBullies(hosts: seq<string>, stubs: set<nat>, up: set<nat>,
                                                           hints: nat -> Option<string>, me: string,
                                                           timestamp: Int32, n: nat)
    requires n <= |hosts|
    ensures var calls := ElectionRound(hosts, stubs, up, hints, me, timestamp, n).calls;
      && (forall m :: m in calls ==> m.call == GetPreviousCoordinatorAddress || m.call == ElectionAnnounce(timestamp))
      && (forall m :: m in calls && m.call.ElectionAnnounce? ==>
            exists i :: 0 <= i < n && i in stubs && hosts[i] == m.to && IsBiggerBully(hosts[i], me))
      && (forall i :: 0 <= i < n && i in stubs && IsBiggerBully(hosts[i], me) ==>
            Message(hosts[i], ElectionAnnounce(timestamp)) in calls)
  {
    if n > 0 {
      ElectionAnnouncesToBiggerBullies(hosts, stubs, up, hints, me, timestamp, n - 1);
    }
  }

  /**
   * The coordinator address `initiateElection` learns is the answer of the
   * first replica in `up` with a stub that gives a non-null one.
   */
  lemma {:induction false} ElectionHintIsFirstAnswer(hosts: seq<string>, stubs: set<nat>, up: set<nat>,
                                                     hints: nat -> Option<string>, me: string,
                                                     timestamp: Int32, n: nat)
    requires n <= |hosts|
    ensures var hint := ElectionRound(hosts, stubs, up, hints, me, timestamp, n).hint;
      && (hint.None? <==> forall i :: 0 <= i < n && i in stubs && i in up ==> hints(i).None?)
      && (hint.Some? ==> exists i ::
            && 0 <= i < n && i in stubs && i in up && hints(i) == hint
            && forall j :: 0 <= j < i && j in stubs && j in up ==> hints(j).None?)
  {
    if n > 0 {
      ElectionHintIsFirstAnswer(hosts, stubs, up, hints, me, timestamp, n - 1);
    }
  }
}
