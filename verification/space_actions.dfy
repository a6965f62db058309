/** The actions of the array-based space store: each commits mutations of
    `CurrentSpace` and appends the operations it queues for the remote API. */
module SpaceActions {
  import opened Common
  import opened Entities
  import opened Seqs
  import opened CurrentSpace

  /** The bodies of queued space operations. */
  datatype SpaceBody =
    | CardBody(card: Card)
    | ZBody(id: string, z: int)
    | ConnectionBody(connection: Connection)
    | TypeBody(connectionType: ConnectionType)
    | UpdateBody(update: SpaceUpdate)

  /** The space after an action, with the operations it queued in order. */
  datatype SpaceStep = SpaceStep(space: Space, ops: seq<Operation<SpaceBody>>)

  // ---------------------------------------------------------------------
  // space

  /** `updateSpace` (action): stamps the update with the current space id,
      commits it and queues it. */
  function UpdateSpaceAction(sp: Space, u: SpaceUpdate): (r: SpaceStep)
    ensures r.space.id == sp.id
    ensures r.space == UpdateSpace(sp, u.(id := Some(sp.id)))
    ensures r.ops == [Operation("updateSpace", UpdateBody(u.(id := Some(sp.id))))]
  {
    var stamped := u.(id := Some(sp.id));
    SpaceStep(UpdateSpace(sp, stamped), [Operation("updateSpace", UpdateBody(stamped))])
  }

  /** The remote copy is newer than the argument's `cacheDate`. An absent
      `cacheDate` compares as `undefined`, and `x > undefined` is false. */
  predicate RemoteIsNewer(remote: Option<Space>, cacheDate: Option<int>) {
    remote.Some? && cacheDate.Some? && remote.value.updatedAt > cacheDate.value
  }

  /** The state `loadSpace` restores before asking the server: the cached
      space, or `{ id, cards: [], connections: [] }` laid over the current
      state by `Object.assign`. */
  function Restored(prev: Space, spaceId: string, cached: Option<Space>): (r: Space)
    ensures cached.None? ==> r.id == spaceId && r.cards == [] && r.connections == []
    ensures cached.None? ==> r == prev.(id := r.id, cards := r.cards, connections := r.connections)
    ensures cached.Some? ==> r == cached.value
  {
    if cached.Some? then cached.value else prev.(id := spaceId, cards := [], connections := [])
  }

  /** `loadSpace`: restores the cached space (or an empty one), then replaces
      it with the remote space when the remote's `updatedAt` is later than
      the argument's `cacheDate`. The server answer is a parameter. */
  function LoadSpace(prev: Space, spaceId: string, cacheDate: Option<int>, cached: Option<Space>,
                     remote: Option<Space>): (r: Space)
    ensures RemoteIsNewer(remote, cacheDate) ==> r == remote.value
    ensures !RemoteIsNewer(remote, cacheDate) ==> r == Restored(prev, spaceId, cached)
  {
    var restored := Restored(prev, spaceId, cached);
    if remote.None? then restored
    else if RemoteIsNewer(remote, cacheDate) then remote.value
    else restored
  }

  /** The decision never looks at the cached snapshot's own `updatedAt`: a
      remote space newer than the argument's `cacheDate` replaces even a cached
      space stamped later than the remote, and without a `cacheDate` the
      remote never replaces anything. */
  lemma LoadSpaceUsesArgumentDate(prev: Space, spaceId: string, cacheDate: Option<int>, cached: Space,
                                  remote: Space)
    ensures cacheDate.Some? && remote.updatedAt > cacheDate.value ==>
      LoadSpace(prev, spaceId, cacheDate, Some(cached.(updatedAt := remote.updatedAt + 1)), Some(remote)) == remote
    ensures cacheDate.None? ==>
      LoadSpace(prev, spaceId, cacheDate, Some(cached), Some(remote)) == cached
  {
  }

  /** Without a cached copy and without a newer remote, only the id, cards
      and connections are reset: name, removed cards, connection types and
      users of the previous space survive. */
  lemma LoadSpaceKeepsOverlaidFields(prev: Space, spaceId: string, cacheDate: Option<int>, remote: Option<Space>)
    requires !RemoteIsNewer(remote, cacheDate)
    ensures var r := LoadSpace(prev, spaceId, cacheDate, None, remote);
      && r.name == prev.name && r.removedCards == prev.removedCards
      && r.connectionTypes == prev.connectionTypes && r.users == prev.users
      && r.id == spaceId && r.cards == [] && r.connections == []
  {
  }

  // ---------------------------------------------------------------------
  // cards

  /** The `updateCard` operations `incrementCardZ` queues: one `{ id, z }` per
      card carrying the id. */
  function ZOps(cs: seq<Card>, cardId: string, z: int): (r: seq<Operation<SpaceBody>>)
    ensures |r| <= |cs|
    ensures forall i | 0 <= i < |r| :: r[i] == Operation("updateCard", ZBody(cardId, z))
    ensures |r| == 0 <==> forall c | c in cs :: c.id != cardId
  {
    if |cs| == 0 then []
    else
      assert forall c | c in cs :: c == cs[0] || c in cs[1..];
      (if cs[0].id == cardId then [Operation("updateCard", ZBody(cardId, z))] else []) + ZOps(cs[1..], cardId, z)
  }

  /** `incrementCardZ` (action): queues the target's new z and commits the
      renumbering. */
  function IncrementCardZAction(sp: Space, cardId: string): (r: SpaceStep)
    ensures r.space == IncrementCardZ(sp, cardId)
    ensures forall i | 0 <= i < |r.ops| :: r.ops[i] == Operation("updateCard", ZBody(cardId, |sp.cards| + 1))
    ensures |r.ops| == 0 <==> forall c | c in sp.cards :: c.id != cardId
  {
    SpaceStep(IncrementCardZ(sp, cardId), ZOps(sp.cards, cardId, |sp.cards| + 1))
  }

  /** The z each queued operation carries is the z the target card holds
      after the renumbering. */
  lemma IncrementCardZQueuesStoredZ(sp: Space, cardId: string)
    ensures var r := IncrementCardZAction(sp, cardId);
      forall i, j | 0 <= i < |r.ops| && 0 <= j < |r.space.cards| && r.space.cards[j].id == cardId ::
        r.ops[i].body.z == r.space.cards[j].z
  {
    IncrementCardZRanks(sp, cardId);
  }

  /** `removeCardPermanent` (action). */
  function RemoveCardPermanentAction(sp: Space, card: Card): (r: SpaceStep)
    ensures forall c :: c in r.space.cards <==> c in sp.cards && c.id != card.id
    ensures forall c :: c in r.space.removedCards <==> c in sp.removedCards && c.id != card.id
    ensures r.ops == [Operation("removeCardPermanent", CardBody(card))]
  {
    SpaceStep(RemoveCardPermanent(sp, card.id), [Operation("removeCardPermanent", CardBody(card))])
  }

  /** `restoreCard` (action), on the corrected mutation. */
  function RestoreCardAction(sp: Space, card: Card): (r: SpaceStep)
    ensures FirstIndex(sp.removedCards, card.id).None? ==> r.space == sp
    ensures FirstIndex(sp.removedCards, card.id).Some? ==>
      var i := FirstIndex(sp.removedCards, card.id).value;
      && r.space.cards == sp.cards + [sp.removedCards[i]]
      && r.space.removedCards == sp.removedCards[..i] + sp.removedCards[i + 1..]
      && |r.space.removedCards| == |sp.removedCards| - 1 && |r.space.cards| == |sp.cards| + 1
    ensures r.space == sp.(cards := r.space.cards, removedCards := r.space.removedCards)
    ensures r.ops == [Operation("restoreCard", CardBody(card))]
  {
    SpaceStep(RestoreCard(sp, card.id), [Operation("restoreCard", CardBody(card))])
  }

  // ---------------------------------------------------------------------
  // connections

  /** The ids of a connection list. */
  function ConnectionIds(cs: seq<Connection>): (r: seq<string>)
    ensures |r| == |cs| && forall i | 0 <= i < |cs| :: r[i] == cs[i].id
  {
    Map(cs, (c: Connection) => c.id)
  }

  /** The ids of a non-empty list: the head's id, then the tail's ids. */
  lemma ConnectionIdsCons(list: seq<Connection>)
    requires |list| > 0
    ensures ConnectionIds(list) == [list[0].id] + ConnectionIds(list[1..])
  {
    var ids, tailIds := ConnectionIds(list), ConnectionIds(list[1..]);
    assert forall j | 0 <= j < |tailIds| :: tailIds[j] == ids[j + 1];
  }

  /** `removeConnection` (action) for each listed connection in turn: commits
      the removal of its id and queues it. */
  function RemoveEach(sp: Space, list: seq<Connection>): (r: SpaceStep)
    ensures r.space == sp.(connections := r.space.connections)
    ensures |r.ops| == |list|
    ensures forall i | 0 <= i < |list| :: r.ops[i] == Operation("removeConnection", ConnectionBody(list[i]))
    ensures forall c :: c in r.space.connections <==> c in sp.connections && c.id !in ConnectionIds(list)
    decreases |list|
  {
    if |list| == 0 then SpaceStep(sp, [])
    else
      var rest := RemoveEach(RemoveConnection(sp, list[0].id), list[1..]);
      ConnectionIdsCons(list);
      SpaceStep(rest.space, [Operation("removeConnection", ConnectionBody(list[0]))] + rest.ops)
  }

  /** `removeConnectionsFromCard`: removes, and queues the removal of, every
      connection that starts or ends at the card. */
  function RemoveConnectionsFromCard(sp: Space, cardId: string): (r: SpaceStep)
    ensures r.space == sp.(connections := r.space.connections)
    ensures forall c | c in r.space.connections :: c in sp.connections && !Touches(c, cardId)
    ensures |r.ops| == |CardConnections(sp.connections, cardId)|
  {
    var touching := CardConnections(sp.connections, cardId);
    var r := RemoveEach(sp, touching);
    r
  }

  /** When connection ids are unique, removing a card's connections keeps
      every connection that does not touch the card. */
  lemma RemoveConnectionsFromCardKeepsOthers(sp: Space, cardId: string)
    requires ConnectionIdsUnique(sp.connections)
    ensures forall c :: c in RemoveConnectionsFromCard(sp, cardId).space.connections <==>
      c in sp.connections && !Touches(c, cardId)
  {
    var touching := CardConnections(sp.connections, cardId);
    forall c | c in sp.connections && !Touches(c, cardId)
      ensures c.id !in ConnectionIds(touching)
    {
      forall i | 0 <= i < |touching| ensures ConnectionIds(touching)[i] != c.id {
        var t := touching[i];
        assert t in touching;
        var a :| 0 <= a < |sp.connections| && sp.connections[a] == t;
        var b :| 0 <= b < |sp.connections| && sp.connections[b] == c;
        assert a != b;
      }
    }
  }

  /** `addConnection` (action): unless a connection with the same start and
      end exists, gives the connection a fresh id and the type's id, queues it
      and appends it. */
  function AddConnectionAction(sp: Space, connection: Connection, connectionTypeId: string, freshId: string): (r: SpaceStep)
    ensures ConnectionAlreadyExists(sp.connections, connection.startCardId, connection.endCardId) ==>
      r == SpaceStep(sp, [])
    ensures !ConnectionAlreadyExists(sp.connections, connection.startCardId, connection.endCardId) ==>
      var added := connection.(id := freshId, connectionTypeId := connectionTypeId);
      && r.space == sp.(connections := sp.connections + [added])
      && r.ops == [Operation("createConnection", ConnectionBody(added))]
    ensures ConnectionAlreadyExists(r.space.connections, connection.startCardId, connection.endCardId)
  {
    if ConnectionAlreadyExists(sp.connections, connection.startCardId, connection.endCardId) then SpaceStep(sp, [])
    else
      var added := connection.(id := freshId, connectionTypeId := connectionTypeId);
      var r := AddConnection(sp, added);
      assert r.connections[|sp.connections|] == added;
      SpaceStep(r, [Operation("createConnection", ConnectionBody(added))])
  }

  /** `addConnection` never creates a second connection between the same start
      and end cards. */
  lemma AddConnectionKeepsPairsUnique(sp: Space, connection: Connection, connectionTypeId: string, freshId: string)
    requires NoDuplicatePairs(sp.connections)
    ensures NoDuplicatePairs(AddConnectionAction(sp, connection, connectionTypeId, freshId).space.connections)
  {
    var cs := AddConnectionAction(sp, connection, connectionTypeId, freshId).space.connections;
    if !ConnectionAlreadyExists(sp.connections, connection.startCardId, connection.endCardId) {
      forall i, j | 0 <= i < j < |cs|
        ensures !(cs[i].startCardId == cs[j].startCardId && cs[i].endCardId == cs[j].endCardId)
      {
        if j == |sp.connections| {
          assert cs[i] == sp.connections[i];
        } else {
          assert cs[i] == sp.connections[i] && cs[j] == sp.connections[j];
        }
      }
    }
  }

  // ---------------------------------------------------------------------
  // removing a card

  /** `removeCard` (action): a card with a name (the argument's name) is
      soft-removed and queued as `removeCard`; a card without one is removed
      permanently; then every connection touching it is removed. */
  function RemoveCardAction(sp: Space, card: Card): (r: SpaceStep)
    ensures r.space == sp.(cards := r.space.cards, removedCards := r.space.removedCards,
                           connections := r.space.connections)
    ensures forall c :: c in r.space.cards <==> c in sp.cards && c.id != card.id
    ensures card.name != "" ==> r.space.removedCards == RemoveCard(sp, card.id).removedCards
    ensures card.name == "" ==> forall c :: c in r.space.removedCards <==> c in sp.removedCards && c.id != card.id
    ensures forall c | c in r.space.connections :: c in sp.connections && !Touches(c, card.id)
    ensures |r.ops| == 1 + |CardConnections(sp.connections, card.id)|
    ensures r.ops[0] == (if card.name != "" then Operation("removeCard", CardBody(card))
                         else Operation("removeCardPermanent", CardBody(card)))
  {
    var first := if card.name != "" then SpaceStep(RemoveCard(sp, card.id), [Operation("removeCard", CardBody(card))])
                 else RemoveCardPermanentAction(sp, card);
    var rest := RemoveConnectionsFromCard(first.space, card.id);
    SpaceStep(rest.space, first.ops + rest.ops)
  }

  /** Removing a card keeps every connection attached to cards of the space:
      the connections of the removed card go with it. */
  lemma RemoveCardKeepsConnectionsAttached(sp: Space, card: Card)
    requires ConnectionsAttached(sp)
    ensures ConnectionsAttached(RemoveCardAction(sp, card).space)
  {
    var r := RemoveCardAction(sp, card).space;
    forall c | c in r.connections
      ensures (exists k | k in r.cards :: k.id == c.startCardId) && (exists k | k in r.cards :: k.id == c.endCardId)
    {
      var s :| s in sp.cards && s.id == c.startCardId;
      var e :| e in sp.cards && e.id == c.endCardId;
      assert s in r.cards && e in r.cards;
    }
  }

  /** With unique connection ids, removing a card keeps every connection that
      does not touch it. */
  lemma RemoveCardKeepsOtherConnections(sp: Space, card: Card)
    requires ConnectionIdsUnique(sp.connections)
    ensures forall c :: c in RemoveCardAction(sp, card).space.connections <==>
      c in sp.connections && !Touches(c, card.id)
  {
    var first := if card.name != "" then RemoveCard(sp, card.id) else RemoveCardPermanent(sp, card.id);
    assert first.connections == sp.connections;
    RemoveConnectionsFromCardKeepsOthers(first, card.id);
  }

  // ---------------------------------------------------------------------
  // connection types

  /** The connection type ids that connections use. */
  function TypeIdsOf(cs: seq<Connection>): (r: seq<string>)
    ensures |r| == |cs| && forall i | 0 <= i < |cs| :: r[i] == cs[i].connectionTypeId
  {
    Map(cs, (c: Connection) => c.connectionTypeId)
  }

  /** The types whose id is in `used`, in order. */
  function TypesIn(ts: seq<ConnectionType>, used: seq<string>): (r: seq<ConnectionType>)
    ensures forall t :: t in r <==> t in ts && t.id in used
  {
    Filter(ts, (t: ConnectionType) => t.id in used)
  }

  /** The types whose id is not in `used`, in order. */
  function TypesNotIn(ts: seq<ConnectionType>, used: seq<string>): (r: seq<ConnectionType>)
    ensures forall t :: t in r <==> t in ts && t.id !in used
  {
    Filter(ts, (t: ConnectionType) => t.id !in used)
  }

  /** The ids of a type list. */
  function TypeIds(ts: seq<ConnectionType>): (r: seq<string>)
    ensures |r| == |ts| && forall i | 0 <= i < |ts| :: r[i] == ts[i].id
  {
    Map(ts, (t: ConnectionType) => t.id)
  }

  /** The ids of a non-empty list: the head's id, then the tail's ids. */
  lemma TypeIdsCons(list: seq<ConnectionType>)
    requires |list| > 0
    ensures TypeIds(list) == [list[0].id] + TypeIds(list[1..])
  {
    var ids, tailIds := TypeIds(list), TypeIds(list[1..]);
    assert forall j | 0 <= j < |tailIds| :: tailIds[j] == ids[j + 1];
  }

  /** For each listed type: queues `removeConnectionType` and commits the
      removal of its id. */
  function RemoveTypes(sp: Space, list: seq<ConnectionType>): (r: SpaceStep)
    ensures r.space == sp.(connectionTypes := r.space.connectionTypes)
    ensures |r.ops| == |list|
    ensures forall i | 0 <= i < |list| :: r.ops[i] == Operation("removeConnectionType", TypeBody(list[i]))
    ensures forall t :: t in r.space.connectionTypes <==> t in sp.connectionTypes && t.id !in TypeIds(list)
    decreases |list|
  {
    if |list| == 0 then SpaceStep(sp, [])
    else
      var rest := RemoveTypes(RemoveConnectionType(sp, list[0].id), list[1..]);
      TypeIdsCons(list);
      SpaceStep(rest.space, [Operation("removeConnectionType", TypeBody(list[0]))] + rest.ops)
  }

  /** `removeUnusedConnectionTypes`: removes, and queues the removal of, every
      type that no connection uses. Exactly the used types remain. */
  function RemoveUnusedConnectionTypes(sp: Space): (r: SpaceStep)
    ensures r.space == sp.(connectionTypes := r.space.connectionTypes)
    ensures forall t :: t in r.space.connectionTypes <==>
      t in sp.connectionTypes && exists c | c in sp.connections :: c.connectionTypeId == t.id
    ensures |r.ops| == |TypesNotIn(sp.connectionTypes, TypeIdsOf(sp.connections))|
  {
    var used := TypeIdsOf(sp.connections);
    var unused := TypesNotIn(sp.connectionTypes, used);
    var r := RemoveTypes(sp, unused);
    forall t | t in sp.connectionTypes
      ensures t.id in TypeIds(unused) <==> t.id !in used
    {
      if t.id !in used {
        var i :| 0 <= i < |unused| && unused[i] == t;
        assert TypeIds(unused)[i] == t.id;
      }
      if t.id in TypeIds(unused) {
        var i :| 0 <= i < |unused| && TypeIds(unused)[i] == t.id;
        assert unused[i] in unused;
      }
    }
    forall k: string ensures k in used <==> exists c | c in sp.connections :: c.connectionTypeId == k {
      if k in used {
        var i :| 0 <= i < |used| && used[i] == k;
        assert sp.connections[i] in sp.connections;
      }
    }
    r
  }

  // ---------------------------------------------------------------------
  // moving cards to another space

  /** The cards whose id is selected, in order. */
  function SelectedCards(cs: seq<Card>, selected: seq<string>): (r: seq<Card>)
    ensures forall c :: c in r <==> c in cs && c.id in selected
  {
    Filter(cs, (c: Card) => c.id in selected)
  }

  /** The connections with both ends selected, in order. */
  function InnerConnections(cs: seq<Connection>, selected: seq<string>): (r: seq<Connection>)
    ensures forall c :: c in r <==> c in cs && c.startCardId in selected && c.endCardId in selected
  {
    Filter(cs, (c: Connection) => c.startCardId in selected && c.endCardId in selected)
  }

  /** What `toAnotherSpace` hands to the other space. */
  datatype Items = Items(cards: seq<Card>, connectionTypes: seq<ConnectionType>, connections: seq<Connection>)

  /** The items for the selected cards: the selected cards, the connections
      between two selected cards, and the types those connections use. */
  function SelectedItems(sp: Space, selected: seq<string>): (r: Items)
    ensures forall c :: c in r.cards <==> c in sp.cards && c.id in selected
    ensures forall c :: c in r.connections <==>
      c in sp.connections && c.startCardId in selected && c.endCardId in selected
    ensures forall t :: t in r.connectionTypes <==>
      t in sp.connectionTypes && exists c | c in r.connections :: c.connectionTypeId == t.id
  {
    var connections := InnerConnections(sp.connections, selected);
    var used := TypeIdsOf(connections);
    forall k: string ensures k in used <==> exists c | c in connections :: c.connectionTypeId == k {
      if k in used {
        var i :| 0 <= i < |used| && used[i] == k;
        assert connections[i] in connections;
      }
    }
    Items(SelectedCards(sp.cards, selected), TypesIn(sp.connectionTypes, used), connections)
  }

  /** For each selected id: the `removeCard` action on `{ id }` (which has no
      name, so the card is removed permanently), then
      `removeConnectionsFromCard`. */
  function RemoveOriginals(sp: Space, ids: seq<string>): (r: SpaceStep)
    ensures r.space == sp.(cards := r.space.cards, removedCards := r.space.removedCards,
                           connections := r.space.connections)
    ensures forall c :: c in r.space.cards <==> c in sp.cards && c.id !in ids
    ensures forall c :: c in r.space.removedCards <==> c in sp.removedCards && c.id !in ids
    ensures forall c | c in r.space.connections :: c in sp.connections
    ensures forall c, k | c in r.space.connections && k in ids :: !Touches(c, k)
    decreases |ids|
  {
    if |ids| == 0 then SpaceStep(sp, [])
    else
      var removed := RemoveCardAction(sp, BareCard(ids[0]));
      var detached := RemoveConnectionsFromCard(removed.space, ids[0]);
      var rest := RemoveOriginals(detached.space, ids[1..]);
      assert forall k :: k in ids <==> k == ids[0] || k in ids[1..];
      SpaceStep(rest.space, removed.ops + detached.ops + rest.ops)
  }

  /** `toAnotherSpace`: the items handed to the target space and, when the
      originals are to be removed, the space without them. */
  function ToAnotherSpace(sp: Space, selected: seq<string>, shouldRemoveOriginals: bool): (r: (Items, SpaceStep))
    ensures r.0 == SelectedItems(sp, selected)
    ensures !shouldRemoveOriginals ==> r.1 == SpaceStep(sp, [])
    ensures shouldRemoveOriginals ==>
      && (forall c | c in r.1.space.cards :: c.id !in selected)
      && (forall c | c in r.1.space.removedCards :: c.id !in selected)
      && (forall c, k | c in r.1.space.connections && k in selected :: !Touches(c, k))
  {
    (SelectedItems(sp, selected), if shouldRemoveOriginals then RemoveOriginals(sp, selected) else SpaceStep(sp, []))
  }
}
