/**
  The live view of one game, fed by a server-pushed event stream. Each message
  carries a whole snapshot that replaces the stored one; a `completed` snapshot is
  stored and then the connection is closed, after which nothing is delivered.
  Transport errors are only logged. The hook that owns the connection closes it
  on cleanup and opens a fresh one when the game identifier changes.
 */
module GameStream {
  import opened Wrappers
  import opened GameApi

  /** An already decoded stream event. */
  datatype Event = Message(snapshot: GameState) | TransportError

  /** The stored snapshot, the hook's error slot, and whether the connection has
      been closed. */
  datatype Subscription = Subscription(gameState: Option<GameState>, error: Option<string>, closed: bool)

  /** A new connection: no snapshot yet, no error, open. */
  const Opened := Subscription(None, None, false)

  predicate IsCompletedMessage(e: Event) {
    e.Message? && e.snapshot.status == Completed
  }

  /** Handling of one event by the connection. */
  function Receive(s: Subscription, e: Event): (s': Subscription)
    ensures s.closed ==> s' == s
    ensures e.TransportError? ==> s' == s
    ensures !s.closed && e.Message? ==>
              s'.gameState == Some(e.snapshot) && (s'.closed <==> e.snapshot.status == Completed)
    ensures s'.error == s.error
  {
    if s.closed then s
    else match e
      case Message(g) => s.(gameState := Some(g), closed := g.status == Completed)
      case TransportError => s
  }

  /** The connection after a sequence of events. */
  function Replay(events: seq<Event>): Subscription {
    if events == [] then Opened
    else Receive(Replay(events[..|events| - 1]), events[|events| - 1])
  }

  /** What holds of every reachable connection: it is closed exactly when it holds
      a completed snapshot, and its error slot is never written. */
  predicate Invariant(s: Subscription) {
    && (s.closed <==> s.gameState.Some? && s.gameState.value.status == Completed)
    && s.error == None
  }

  lemma {:induction false} ReplayInvariant(events: seq<Event>)
    ensures Invariant(Replay(events))
  {
    if events != [] {
      ReplayInvariant(events[..|events| - 1]);
    }
  }

  /** A closed connection absorbs every later event. */
  lemma {:induction false} ClosedAbsorbs(events: seq<Event>, later: seq<Event>)
    requires Replay(events).closed
    ensures Replay(events + later) == Replay(events)
    decreases |later|
  {
    if later == [] {
      assert events + later == events;
    } else {
      var n := |later|;
      ClosedAbsorbs(events, later[..n - 1]);
      var all := events + later;
      assert all[..|all| - 1] == events + later[..n - 1];
      assert Replay(all) == Receive(Replay(events + later[..n - 1]), all[|all| - 1]);
    }
  }

  /** The connection described without replaying it: it is closed exactly when some
      message was completed; it holds no snapshot exactly when no message arrived;
      and the snapshot it holds is the one of a message `j` with no completed
      message before it, after which a message arrived only if `j` was completed. */
  lemma {:induction false} ReplayCharacterized(events: seq<Event>)
    ensures Replay(events).closed <==> exists i :: 0 <= i < |events| && IsCompletedMessage(events[i])
    ensures Replay(events).gameState.None? <==> forall i :: 0 <= i < |events| ==> !events[i].Message?
    ensures Replay(events).gameState.Some? ==>
              exists j :: 0 <= j < |events| && events[j] == Message(Replay(events).gameState.value)
                && (forall k :: 0 <= k < j ==> !IsCompletedMessage(events[k]))
                && (forall k :: j < k < |events| && events[k].Message? ==> IsCompletedMessage(events[j]))
  {
    if events != [] {
      var n := |events|;
      var p := events[..n - 1];
      var e := events[n - 1];
      ReplayCharacterized(p);
      ReplayInvariant(p);
      assert forall i :: 0 <= i < n - 1 ==> events[i] == p[i];
      var s := Replay(p);
      if s.closed || e.TransportError? {
        assert Replay(events) == s;
        if s.gameState.Some? {
          var j :| 0 <= j < |p| && p[j] == Message(s.gameState.value)
                   && (forall k :: 0 <= k < j ==> !IsCompletedMessage(p[k]))
                   && (forall k :: j < k < |p| && p[k].Message? ==> IsCompletedMessage(p[j]));
          assert events[j] == p[j];
          assert forall k :: j < k < |events| && events[k].Message? ==> IsCompletedMessage(events[j]);
        }
      } else {
        assert Replay(events).gameState == Some(e.snapshot);
        assert !exists i :: 0 <= i < |p| && IsCompletedMessage(p[i]);
        assert events[n - 1].Message?;
      }
    }
  }

  /** One connection of the hook, with the game it was opened for. */
  datatype Connection = Connection(gameId: string, closed: bool)

  /** The hook's state: the game it follows, the snapshot and error it returns,
      and every connection it has opened, oldest first. */
  datatype Hook = Hook(gameId: string, gameState: Option<GameState>, error: Option<string>, connections: seq<Connection>)

  /** Every connection closed. */
  function CloseAll(connections: seq<Connection>): (r: seq<Connection>)
    ensures |r| == |connections|
    ensures forall i :: 0 <= i < |r| ==> r[i] == connections[i].(closed := true)
  {
    if connections == [] then []
    else [connections[0].(closed := true)] + CloseAll(connections[1..])
  }

  /** The reachable shapes of the hook: only the newest connection can be open, it
      belongs to the current game, and the returned error is always `null`. */
  predicate HookInvariant(h: Hook) {
    && |h.connections| > 0
    && h.connections[|h.connections| - 1].gameId == h.gameId
    && (forall i :: 0 <= i < |h.connections| - 1 ==> h.connections[i].closed)
    && h.error == None
  }

  /** Number of connections still open. */
  function OpenCount(connections: seq<Connection>): nat {
    if connections == [] then 0
    else (if connections[0].closed then 0 else 1) + OpenCount(connections[1..])
  }

  lemma {:induction false} AtMostOneOpen(h: Hook)
    requires HookInvariant(h)
    ensures OpenCount(h.connections) <= 1
  {
    var cs := h.connections;
    var k := 0;
    while k < |cs| - 1
      invariant 0 <= k <= |cs| - 1
      invariant OpenCount(cs) == OpenCount(cs[k..])
    {
      assert cs[k..][0] == cs[k];
      assert cs[k..][1..] == cs[k + 1..];
      k := k + 1;
    }
    assert cs[k..][1..] == [];
  }

  /** First render: nothing stored, one open connection for the game. */
  function Mount(gameId: string): (h: Hook)
    ensures HookInvariant(h) && h.gameState == None && h.gameId == gameId
    ensures OpenCount(h.connections) == 1
  {
    Hook(gameId, None, None, [Connection(gameId, false)])
  }

  /** An event on connection `c`: an open connection handles it as `Receive` does;
      a closed (or unknown) one delivers nothing. */
  function Deliver(h: Hook, c: nat, e: Event): (h': Hook)
    ensures (c >= |h.connections| || h.connections[c].closed) ==> h' == h
    ensures |h'.connections| == |h.connections| && h'.gameId == h.gameId && h'.error == h.error
    ensures forall i :: 0 <= i < |h.connections| && i != c ==> h'.connections[i] == h.connections[i]
    ensures c < |h.connections| && !h.connections[c].closed ==>
              var s := Receive(Subscription(h.gameState, h.error, false), e);
              h'.gameState == s.gameState && h'.connections[c].closed == s.closed
    ensures HookInvariant(h) ==> HookInvariant(h')
  {
    if c < |h.connections| && !h.connections[c].closed then
      var s := Receive(Subscription(h.gameState, h.error, false), e);
      h.(gameState := s.gameState, connections := h.connections[c := h.connections[c].(closed := s.closed)])
    else h
  }

  /** Cleanup on unmount closes the connection. */
  function Unmount(h: Hook): (h': Hook)
    ensures forall i :: 0 <= i < |h'.connections| ==> h'.connections[i].closed
    ensures OpenCount(h'.connections) == 0
    ensures h'.gameState == h.gameState
  {
    var closed := CloseAll(h.connections);
    OpenCountClosed(closed);
    h.(connections := closed)
  }

  lemma {:induction false} OpenCountClosed(connections: seq<Connection>)
    requires forall i :: 0 <= i < |connections| ==> connections[i].closed
    ensures OpenCount(connections) == 0
  {
    if connections != [] {
      OpenCountClosed(connections[1..]);
    }
  }

  /** A new game identifier re-runs the effect: the previous connection is closed
      before the new one is opened. The stored snapshot is React state and is not
      reset, so the previous game's snapshot stays until the new stream sends one.
      The same identifier does not re-run the effect. */
  function ChangeGameId(h: Hook, gameId: string): (h': Hook)
    ensures gameId == h.gameId ==> h' == h
    ensures gameId != h.gameId ==>
              && |h'.connections| == |h.connections| + 1
              && (forall i :: 0 <= i < |h.connections| ==> h'.connections[i].closed)
              && h'.connections[|h.connections|] == Connection(gameId, false)
              && h'.gameState == h.gameState
    ensures HookInvariant(h) ==> HookInvariant(h')
  {
    if gameId == h.gameId then h
    else h.(gameId := gameId, connections := CloseAll(h.connections) + [Connection(gameId, false)])
  }

  /** Events delivered to the newest connection of a freshly mounted hook behave as
      the single-connection model: the hook returns what `Replay` stores. */
  lemma {:induction false} MountedHookFollowsReplay(gameId: string, events: seq<Event>)
    ensures var h := DeliverAll(Mount(gameId), 0, events);
            h.gameState == Replay(events).gameState
            && h.connections[0].closed == Replay(events).closed
            && h.error == None
  {
    if events != [] {
      var n := |events|;
      MountedHookFollowsReplay(gameId, events[..n - 1]);
      DeliverAllSnoc(Mount(gameId), 0, events[..n - 1], events[n - 1]);
      assert events[..n - 1] + [events[n - 1]] == events;
      ReplayInvariant(events[..n - 1]);
    }
  }

  /** A sequence of events, all on connection `c`. */
  function DeliverAll(h: Hook, c: nat, events: seq<Event>): (h': Hook)
    ensures |h'.connections| == |h.connections|
    ensures HookInvariant(h) ==> HookInvariant(h')
    decreases |events|
  {
    if events == [] then h
    else DeliverAll(Deliver(h, c, events[0]), c, events[1..])
  }

  lemma {:induction false} DeliverAllSnoc(h: Hook, c: nat, events: seq<Event>, e: Event)
    ensures DeliverAll(h, c, events + [e]) == Deliver(DeliverAll(h, c, events), c, e)
    decreases |events|
  {
    if events != [] {
      assert (events + [e])[1..] == events[1..] + [e];
      DeliverAllSnoc(Deliver(h, c, events[0]), c, events[1..], e);
    }
  }
}
