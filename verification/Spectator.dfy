/** A client that only watches: it joins with its log, then takes deliveries while batches are posted
    (backend/websocket.go, frontend/services/syncManager.js, frontend/controllers/ActiveGameController.js). */
module Spectator {
  import opened Actions
  import opened Sync

  /** The server log, the client log, and the actions on their way. */
  datatype Net = Net(server: seq<Action>, client: seq<Action>, queue: seq<Action>)

  datatype Event = Post(base: Id, actions: seq<Action>) | Deliver

  /** A post that changes the log is broadcast whole, its repeated part included. */
  ghost function Next(net: Net, event: Event): Net {
    match event
    case Post(base, actions) =>
      var server := if Accepts(net.server, base, actions) then AcceptedLog(net.server, base, actions) else net.server;
      if server == net.server then net else Net(server, net.client, net.queue + actions)
    case Deliver =>
      if net.queue == [] then net
      else Net(net.server, Merge(net.client, net.queue[..1]), net.queue[1..])
  }

  ghost function Trace(net: Net, events: seq<Event>): Net
    decreases |events|
  {
    if events == [] then net else Trace(Next(net, events[0]), events[1..])
  }

  /** What the client will hold once everything on its way has arrived. */
  ghost function Eventually(net: Net): seq<Action> {
    Merge(net.client, net.queue)
  }

  lemma {:induction false} MergeFollowsServer(server: seq<Action>, actions: seq<Action>)
    ensures Merge(Dedup(server), actions) == Dedup(ExtendLog(server, actions))
    decreases |actions|
  {
    if actions != [] {
      var a := actions[0];
      MergeHolds([], server);
      assert !Holds([], a.id) && (Recent(server, a.id) ==> Holds(server, a.id));
      MergeConcat([], server, [a]);
      assert Merge(Dedup(server), [a]) == if Holds(Dedup(server), a.id) then Dedup(server) else Dedup(server) + [a];
      MergeFollowsServer(AppliedLog(server, a), actions[1..]);
    }
  }

  lemma NextKeepsTheClientOnCourse(net: Net, event: Event)
    requires Eventually(net) == Dedup(net.server)
    ensures Eventually(Next(net, event)) == Dedup(Next(net, event).server)
  {
    match event
    case Post(base, actions) =>
      MergeConcat(net.client, net.queue, actions);
      MergeFollowsServer(net.server, actions);
    case Deliver =>
      if net.queue != [] {
        MergeConcat(net.client, net.queue[..1], net.queue[1..]);
        assert net.queue == net.queue[..1] + net.queue[1..];
      }
  }

  /** Over every interleaving of posts and deliveries, the client's log followed by what is on its way is the
      server log with repeated ids dropped. */
  lemma {:induction false} SpectatorStaysOnCourse(net: Net, events: seq<Event>)
    requires Eventually(net) == Dedup(net.server)
    ensures Eventually(Trace(net, events)) == Dedup(Trace(net, events).server)
    decreases |events|
  {
    if events != [] {
      NextKeepsTheClientOnCourse(net, events[0]);
      SpectatorStaysOnCourse(Next(net, events[0]), events[1..]);
    }
  }

  lemma {:induction false} MergeOfDistinct(held: seq<Action>, incoming: seq<Action>)
    requires DistinctIds(held + incoming)
    ensures Merge(held, incoming) == held + incoming
    decreases |incoming|
  {
    if incoming == [] {
      assert held + incoming == held;
    } else {
      assert (held + incoming)[|held|] == incoming[0];
      assert !Holds(held, incoming[0].id) by {
        forall i | 0 <= i < |held|
          ensures held[i].id != incoming[0].id
        {
          assert (held + incoming)[i] == held[i];
        }
      }
      assert held + [incoming[0]] + incoming[1..] == held + incoming;
      MergeOfDistinct(held + [incoming[0]], incoming[1..]);
    }
  }

  lemma DedupIsIdentityIffDistinct(log: seq<Action>)
    ensures Dedup(log) == log <==> DistinctIds(log)
  {
    MergeHolds([], log);
    if DistinctIds(log) {
      assert [] + log == log;
      MergeOfDistinct([], log);
    }
  }

  /** So it converges on the server log itself exactly when that log carries no id twice: an id appended again
      beyond the duplicate window never reaches the client. */
  lemma SpectatorConvergesIffDistinct(net: Net, events: seq<Event>)
    requires Eventually(net) == Dedup(net.server)
    ensures var end := Trace(net, events);
            Eventually(end) == end.server <==> DistinctIds(end.server)
  {
    SpectatorStaysOnCourse(net, events);
    DedupIsIdentityIffDistinct(Trace(net, events).server);
  }

  /** Every action of the batch whose id the log holds is still in the duplicate window at its turn. */
  ghost predicate Recalled(log: seq<Action>, actions: seq<Action>)
    decreases |actions|
  {
    actions == []
    || ((Holds(log, actions[0].id) ==> Recent(log, actions[0].id)) && Recalled(AppliedLog(log, actions[0]), actions[1..]))
  }

  lemma RecentIsHeld(log: seq<Action>, id: Id)
    ensures Recent(log, id) ==> Holds(log, id)
  {
  }

  lemma OneMoreIsDistinctIff(log: seq<Action>, a: Action)
    requires DistinctIds(log)
    ensures DistinctIds(AppliedLog(log, a)) <==> (Holds(log, a.id) ==> Recent(log, a.id))
  {
    var next := log + [a];
    RecentIsHeld(log, a.id);
    if Holds(log, a.id) {
      var i :| 0 <= i < |log| && log[i].id == a.id;
      assert next[i].id == next[|log|].id;
    } else {
      forall i, j | 0 <= i < j < |next|
        ensures next[i].id != next[j].id
      {
        assert next[i] == log[i];
      }
    }
  }

  lemma PrefixIsDistinct(log: seq<Action>, longer: seq<Action>)
    requires log <= longer && DistinctIds(longer)
    ensures DistinctIds(log)
  {
    forall i, j | 0 <= i < j < |log|
      ensures log[i].id != log[j].id
    {
      assert longer[i] == log[i] && longer[j] == log[j];
    }
  }

  /** A distinct log stays distinct under a batch exactly if the window recalls whatever the batch repeats. */
  lemma {:induction false} StaysDistinctIffRecalled(log: seq<Action>, actions: seq<Action>)
    requires DistinctIds(log)
    ensures DistinctIds(ExtendLog(log, actions)) <==> Recalled(log, actions)
    decreases |actions|
  {
    hide Recent, Holds, DistinctIds;
    if actions != [] {
      var next := AppliedLog(log, actions[0]);
      OneMoreIsDistinctIff(log, actions[0]);
      if DistinctIds(next) {
        StaysDistinctIffRecalled(next, actions[1..]);
      } else {
        ExtendLogGrows(next, actions[1..]);
        if DistinctIds(ExtendLog(log, actions)) {
          PrefixIsDistinct(next, ExtendLog(log, actions));
        }
      }
    }
  }

  /** A post that is applied repeats nothing beyond the window. */
  ghost predicate RecalledAt(net: Net, event: Event) {
    event.Post? && Accepts(net.server, event.base, event.actions)
    && (net.server == [] || Overlap(net.server, event.base) < |event.actions|)
    ==> Recalled(net.server, event.actions)
  }

  ghost predicate AllRecalled(net: Net, events: seq<Event>)
    decreases |events|
  {
    events == [] || (RecalledAt(net, events[0]) && AllRecalled(Next(net, events[0]), events[1..]))
  }

  lemma NextIsDistinctIff(net: Net, event: Event)
    requires DistinctIds(net.server)
    ensures net.server <= Next(net, event).server
    ensures DistinctIds(Next(net, event).server) <==> RecalledAt(net, event)
  {
    hide Accepts, Recalled, DistinctIds;
    if event.Post? {
      StaysDistinctIffRecalled(net.server, event.actions);
      ExtendLogGrows(net.server, event.actions);
    }
  }

  lemma {:induction false} ServerGrows(net: Net, events: seq<Event>)
    ensures net.server <= Trace(net, events).server
    decreases |events|
  {
    if events != [] {
      ServerGrows(Next(net, events[0]), events[1..]);
      if events[0].Post? {
        ExtendLogGrows(net.server, events[0].actions);
      }
    }
  }

  lemma {:induction false} DistinctToTheEndIff(net: Net, events: seq<Event>)
    requires DistinctIds(net.server)
    ensures DistinctIds(Trace(net, events).server) <==> AllRecalled(net, events)
    decreases |events|
  {
    hide DistinctIds, RecalledAt, Next;
    if events != [] {
      var next := Next(net, events[0]);
      NextIsDistinctIff(net, events[0]);
      if DistinctIds(next.server) {
        DistinctToTheEndIff(next, events[1..]);
      } else {
        ServerGrows(next, events[1..]);
        if DistinctIds(Trace(net, events).server) {
          PrefixIsDistinct(next.server, Trace(net, events).server);
        }
      }
    }
  }

  /** From a distinct log the client converges on the server log over a run of posts and deliveries exactly if no post
      repeats an id beyond the window. */
  lemma SpectatorConvergesIffRecalled(net: Net, events: seq<Event>)
    requires DistinctIds(net.server) && Eventually(net) == net.server
    ensures Eventually(Trace(net, events)) == Trace(net, events).server <==> AllRecalled(net, events)
  {
    DedupIsIdentityIffDistinct(net.server);
    SpectatorConvergesIffDistinct(net, events);
    DistinctToTheEndIff(net, events);
  }

  function Finals(n: nat): (log: seq<Action>)
    ensures |log| == n && forall i :: 0 <= i < n ==> log[i] == Action(Uuid(i), GameFinalize)
  {
    if n == 0 then [] else Finals(n - 1) + [Action(Uuid(n - 1), GameFinalize)]
  }

  /** And one can: here the first of 101 entries is posted again at the head, accepted, and appended; the client drops
      it. */
  lemma RepeatBeyondTheWindowDiverges()
    ensures var log := Finals(MAX_SCAN + 1);
      var net, post := Net(log, log, []), Post(Uuid(MAX_SCAN), [Action(Uuid(0), GameFinalize)]);
      DistinctIds(log) && Eventually(net) == log && Eventually(Trace(net, [post])) != Trace(net, [post]).server
  {
    hide Finals;
    var log := Finals(MAX_SCAN + 1);
    var net, post := Net(log, log, []), Post(Uuid(MAX_SCAN), [Action(Uuid(0), GameFinalize)]);
    assert Head(log) == Uuid(MAX_SCAN) && After(log, Uuid(MAX_SCAN)) == |log|;
    assert log[0].id == Uuid(0) && Holds(log, Uuid(0)) && !Recent(log, Uuid(0));
    assert !RecalledAt(net, post) && !AllRecalled(net, [post]);
    SpectatorConvergesIffRecalled(net, [post]);
  }

  /** Every accepted batch is an exact retry, or continues the log with ids it does not hold. */
  ghost predicate Fresh(net: Net, event: Event) {
    event.Post? && Accepts(net.server, event.base, event.actions)
    ==> |event.actions| <= MAX_BATCH && DistinctIds(event.actions)
        && SharesNoId(net.server[..After(net.server, event.base)], event.actions)
  }

  ghost predicate AllFresh(net: Net, events: seq<Event>)
    decreases |events|
  {
    events == [] || (Fresh(net, events[0]) && AllFresh(Next(net, events[0]), events[1..]))
  }

  lemma FreshKeepsDistinct(net: Net, event: Event)
    requires DistinctIds(net.server) && Fresh(net, event)
    ensures DistinctIds(Next(net, event).server)
  {
    if event.Post? && Accepts(net.server, event.base, event.actions) {
      var g := NewGame(NoId).(log := net.server);
      var n := Overlap(net.server, event.base);
      AfterIsLast(net.server, event.base);
      ExtendIsExtendLog(g, event.actions);
      if n < |event.actions| {
        var rest := event.actions[n..];
        WholeBatchEqualsRemainder(g, event.base, event.actions);
        ExtendIsExtendLog(g, rest);
        RemainderIsFresh(net.server, event.base, event.actions);
        FreshIsUnseen(net.server, rest);
        LandsWholeIffUnseen(net.server, rest);
      }
    }
  }

  /** From a distinct log, over any run of fresh batches and exact retries, the client converges on the server log. */
  lemma {:induction false} SpectatorConverges(net: Net, events: seq<Event>)
    requires DistinctIds(net.server) && Eventually(net) == net.server && AllFresh(net, events)
    ensures Eventually(Trace(net, events)) == Trace(net, events).server
    decreases |events|
  {
    DedupIsIdentityIffDistinct(net.server);
    if events != [] {
      FreshKeepsDistinct(net, events[0]);
      NextKeepsTheClientOnCourse(net, events[0]);
      DedupIsIdentityIffDistinct(Next(net, events[0]).server);
      SpectatorConverges(Next(net, events[0]), events[1..]);
    }
  }

  /** getActionsSince: everything after the first entry with this id. */
  function Since(log: seq<Action>, revision: Id): seq<Action> {
    if log == [] then [] else if log[0].id == revision then log[1..] else Since(log[1..], revision)
  }

  /** What a join sends: nothing when the client claims no revision or the server's own. */
  function JoinReply(log: seq<Action>, revision: Id): seq<Action> {
    if revision == NoId || revision == Head(log) then [] else Since(log, revision)
  }

  lemma {:induction false} SinceFindsTheEntry(log: seq<Action>, k: nat)
    requires DistinctIds(log) && k < |log|
    ensures Since(log, log[k].id) == log[k + 1..]
    decreases k
  {
    if k > 0 {
      assert log[0].id != log[k].id;
      SinceFindsTheEntry(log[1..], k - 1);
      assert log[1..][k - 1] == log[k] && log[1..][k..] == log[k + 1..];
    }
  }

  /** A client that holds a prefix of a distinct log is caught up by joining, exactly when the prefix is not empty
      (or there was nothing to miss): an empty client is acknowledged and sent nothing. */
  lemma JoinCatchesUpIff(server: seq<Action>, k: nat)
    requires DistinctIds(server) && Named(server) && k <= |server|
    ensures Merge(server[..k], JoinReply(server, Head(server[..k]))) == server <==> 0 < k || server == []
  {
    if 0 < k {
      SinceFindsTheEntry(server, k - 1);
      if server[k - 1].id == Head(server) {
        assert k == |server|;
        assert server[..k] == server;
      }
      assert JoinReply(server, Head(server[..k])) == server[k..];
      assert server[..k] + server[k..] == server;
      MergeOfDistinct(server[..k], server[k..]);
    }
  }
}
