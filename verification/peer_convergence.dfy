/** Convergence of the broadcast relay: for each card action, a peer that
    starts from the sender's store and replays the events the action emitted
    ends with the sender's store, and for the `remove` action as the JavaScript
    writes it, with a different one. */
module PeerConvergence {
  import opened Common
  import opened Entities
  import opened CurrentCards
  import opened CardActions
  import opened CardRelay

  /** A peer that receives the events of `add` ends with the sender's store. */
  lemma AddReplaysAtPeer(s: Store, req: AddRequest, freshId: string, userId: string,
                         emptyWidth: int, emptyHeight: int, shouldPreventAddCard: bool)
    requires Valid(s)
    ensures var r := Add(s, req, freshId, userId, emptyWidth, emptyHeight, shouldPreventAddCard);
      ReplayAll(s, r.events) == r.store
  {
    var r := Add(s, req, freshId, userId, emptyWidth, emptyHeight, shouldPreventAddCard);
    if !shouldPreventAddCard {
      ReplayPair(s, r.events[0], r.events[1]);
      assert r.events == [r.events[0], r.events[1]];
    }
  }

  /** Replaying the events of clearing some z values reproduces the clearing. */
  lemma {:induction false} ClearZsReplaysAtPeer(s: Store, ids: seq<string>)
    requires Valid(s)
    ensures ReplayAll(s, ClearZs(s, ids).events) == ClearZs(s, ids).store
    decreases |ids|
  {
    if |ids| > 0 {
      var body := ZPatch(ids[0], 0);
      var next := Update(s, body);
      ClearZsReplaysAtPeer(next, ids[1..]);
      ReplayAllAppend(s, UpdateEvents(body), ClearZs(next, ids[1..]).events);
      ReplayUpdateEvents(s, body);
    }
  }

  /** Replaying the events of the z reset that may precede bringing a card to
      the front reproduces it. */
  lemma LeveledReplaysAtPeer(s: Store)
    requires Valid(s)
    ensures ReplayAll(s, Leveled(s).events) == Leveled(s).store
  {
    if HighestZ(All(s)) > ZResetThreshold {
      ClearZsReplaysAtPeer(s, s.ids);
    }
  }

  /** A peer that receives the events of bringing a card to the front, sent by
      a user who can edit the space, ends with the sender's store, including
      after a z reset. */
  lemma IncrementZReplaysAtPeer(s: Store, id: string, userCanEdit: bool)
    requires Valid(s) && userCanEdit
    ensures ReplayAll(s, IncrementZ(s, id, userCanEdit).events) == IncrementZ(s, id, userCanEdit).store
  {
    if id in s.cards && !s.cards[id].isLocked {
      LeveledReplaysAtPeer(s);
      ReplayThenUpdate(s, Leveled(s), ZPatch(id, FrontZ(s)), IncrementZ(s, id, userCanEdit));
    }
  }

  /** A peer that receives the events of `resize` ends with the sender's store:
      each card's update arrives twice (as `updateCard` and `resizeCard`), and
      applying an update twice is applying it once. */
  lemma {:induction false} ResizeReplaysAtPeer(s: Store, cardIds: seq<string>, deltaX: int)
    requires Valid(s)
    ensures ReplayAll(s, Resize(s, cardIds, deltaX).events) == Resize(s, cardIds, deltaX).store
    decreases |cardIds|
  {
    if |cardIds| > 0 && cardIds[0] in s.cards {
      var id := cardIds[0];
      var width := ResizedWidth(s.cards[id], deltaX);
      var updates := IdOnly(id).(resizeWidth := Some(Some(width)));
      var next := Update(s, updates);
      var head := UpdateEvents(updates) + [Broadcast("resizeCard", UpdateHandler, PatchBody(updates))];
      ApplyPatchIdempotent(s.cards[id], updates);
      assert Update(next, updates) == next;
      assert ReplayAll(s, head) == next by {
        var u := UpdateEvents(updates);
        ReplayUpdateEvents(s, updates);
        ReplayAllAppend(s, u, [head[2]]);
        assert [head[2]][1..] == [];
      }
      ResizeReplaysAtPeer(next, cardIds[1..], deltaX);
      ReplayAllAppend(s, head, Resize(next, cardIds[1..], deltaX).events);
    }
  }

  /** A peer that receives the events of `remove` ends with the sender's store,
      whether the card was soft-removed or deleted. */
  lemma RemoveReplaysAtPeer(s: Store, target: Option<Card>)
    requires Valid(s)
    ensures ReplayAll(s, CardActions.Remove(s, target).events) == CardActions.Remove(s, target).store
  {
    var r := CardActions.Remove(s, target);
    if target.Some? && target.value.id in s.cards {
      ReplayPair(s, r.events[0], r.events[1]);
      assert r.events == [r.events[0], r.events[1]];
    }
  }

  /** With the handler the JavaScript names, a peer that receives the removal of an
      empty card keeps it on top of its removed-card stack, while the sender
      deleted it for good: the two stores disagree. */
  lemma RemoveAsWrittenDivergesAtPeer(s: Store, card: Card)
    requires Valid(s) && card.id in s.cards && s.cards[card.id].name == ""
    ensures var r := RemoveAsWritten(s, Some(card));
      && ReplayAll(s, r.events).removedCards == [s.cards[card.id]] + s.removedCards
      && !InRemoved(r.store.removedCards, card.id)
      && ReplayAll(s, r.events) != r.store
  {
    var r := RemoveAsWritten(s, Some(card));
    ReplayPair(s, r.events[0], r.events[1]);
    assert r.events == [r.events[0], r.events[1]];
    var peer := ReplayAll(s, r.events);
    assert peer.removedCards[0].id == card.id;
    assert InRemoved(peer.removedCards, card.id);
  }

  /** A peer that receives the events of `restoreRemoved` ends with the
      sender's store. */
  lemma RestoreRemovedReplaysAtPeer(s: Store, card: Card)
    ensures ReplayAll(s, RestoreRemovedAction(s, card).events) == RestoreRemovedAction(s, card).store
  {
    var r := RestoreRemovedAction(s, card);
    ReplayPair(s, r.events[0], r.events[1]);
  }

  /** A drag frame moves nothing in a peer's store: its broadcasts only move
      cards and redraw connection paths on the peer's screen, and its queued
      connection updates go to the server. */
  lemma MoveReplaysAtPeer(s: Store, peer: Store, selected: seq<string>, draggingId: string,
                          rendered: string -> Point, connectionsOf: string -> seq<string>,
                          delta: Point, hasCursors: bool)
    ensures ReplayAll(peer, Move(s, selected, draggingId, rendered, connectionsOf, delta, hasCursors).events) == peer
  {
    var r := Move(s, selected, draggingId, rendered, connectionsOf, delta, hasCursors);
    if hasCursors {
      forall i | 2 <= i < |r.events| ensures Inert(r.events[i]) {
        assert r.events[i] == r.events[2..][i - 2];
      }
    }
    ReplayAllInert(peer, r.events);
  }
}
