/** The receiving side of the broadcast relay: a peer applies each broadcast
    by running the store mutation it names, and never queues or re-broadcasts
    anything itself (a replay returns only a store). Queued operations go to
    the remote API, not to peers, so a peer ignores them. */
module CardRelay {
  import opened Common
  import opened Entities
  import opened CurrentCards
  import opened CardActions

  /** A peer's store after receiving one event. A body of the wrong shape for
      its handler changes nothing; `moveWhileDraggingBroadcast` writes only the
      screen. */
  function Replay(s: Store, e: Event): Store {
    match e
    case Queue(_) => s
    case Broadcast(_, handler, body) =>
      match (handler, body)
      case (CreateHandler, CardBody(c)) => Create(s, c)
      case (UpdateHandler, PatchBody(p)) => Update(s, p)
      case (RemoveHandler, CardBody(c)) => CurrentCards.Remove(s, Some(c))
      case (DeleteCardHandler, CardBody(c)) => DeleteCard(s, Some(c))
      case (RestoreRemovedHandler, CardBody(c)) => RestoreRemoved(s, c)
      case (MoveBroadcastHandler, MovesBody(ps)) => MoveBroadcast(s, ps)
      case _ => s
  }

  /** A peer's store after receiving a list of events in order. */
  function ReplayAll(s: Store, es: seq<Event>): Store
    decreases |es|
  {
    if |es| == 0 then s else ReplayAll(Replay(s, es[0]), es[1..])
  }

  /** An event that changes no peer's store: a queued operation, or a
      broadcast that only redraws the peer's screen. */
  predicate Inert(e: Event) {
    e.Queue? || e.handler == MoveWhileDraggingHandler || e.handler == UpdatePathsHandler
  }

  /** A peer's store is unchanged by any run of inert events. */
  lemma {:induction false} ReplayAllInert(s: Store, es: seq<Event>)
    requires forall i | 0 <= i < |es| :: Inert(es[i])
    ensures ReplayAll(s, es) == s
    decreases |es|
  {
    if |es| > 0 {
      assert forall i | 0 <= i < |es[1..]| :: es[1..][i] == es[i + 1];
      ReplayAllInert(s, es[1..]);
    }
  }

  /** Replaying two lists one after the other is replaying their concatenation. */
  lemma {:induction false} ReplayAllAppend(s: Store, a: seq<Event>, b: seq<Event>)
    ensures ReplayAll(s, a + b) == ReplayAll(ReplayAll(s, a), b)
    decreases |a|
  {
    if |a| > 0 {
      assert (a + b)[0] == a[0] && (a + b)[1..] == a[1..] + b;
      ReplayAllAppend(Replay(s, a[0]), a[1..], b);
      calc {
        ReplayAll(s, a + b);
        ReplayAll(Replay(s, a[0]), a[1..] + b);
        ReplayAll(ReplayAll(Replay(s, a[0]), a[1..]), b);
      }
    } else {
      assert a + b == b;
    }
  }

  /** Replaying a two-event list is replaying one event after the other. */
  lemma ReplayPair(s: Store, a: Event, b: Event)
    ensures ReplayAll(s, [a, b]) == Replay(Replay(s, a), b)
  {
    var s1 := Replay(s, a);
    assert [a, b][0] == a && [a, b][1..] == [b];
    assert ReplayAll(s, [a, b]) == ReplayAll(s1, [b]);
    assert [b][0] == b && [b][1..] == [];
    assert ReplayAll(s1, [b]) == ReplayAll(Replay(s1, b), []);
  }

  /** The peer's side of one `update`: the queued half is ignored and the
      broadcast half runs the same mutation. */
  lemma ReplayUpdateEvents(s: Store, p: CardPatch)
    ensures ReplayAll(s, UpdateEvents(p)) == Update(s, p)
  {
    var u := UpdateEvents(p);
    ReplayPair(s, u[0], u[1]);
    assert u == [u[0], u[1]];
  }

  /** A step that replays at a peer, followed by one `update`, replays at
      the peer. */
  lemma ReplayThenUpdate(s: Store, prior: Step, body: CardPatch, r: Step)
    requires ReplayAll(s, prior.events) == prior.store
    requires r.events == prior.events + UpdateEvents(body) && r.store == Update(prior.store, body)
    ensures ReplayAll(s, r.events) == r.store
  {
    ReplayAllAppend(s, prior.events, UpdateEvents(body));
    ReplayUpdateEvents(prior.store, body);
  }
}
