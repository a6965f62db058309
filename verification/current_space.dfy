/** The array-based space store: one space holding its cards, removed cards,
    connections, connection types and users as sequences, with the mutations
    that edit them and the connection getters. */
module CurrentSpace {
  import opened Common
  import opened Seqs
  import opened Entities

  /** A line between two cards, drawn in a connection type's style. */
  datatype Connection = Connection(id: string, startCardId: string, endCardId: string, connectionTypeId: string)

  /** A named, coloured kind of connection. */
  datatype ConnectionType = ConnectionType(id: string, name: string, color: string)

  /** A member of the space. */
  datatype User = User(id: string, name: string, color: string)

  /** The space record. `updatedAt` is already normalised to a Unix time. */
  datatype Space = Space(
    id: string,
    name: string,
    privacy: string,
    cards: seq<Card>,
    removedCards: seq<Card>,
    connections: seq<Connection>,
    connectionTypes: seq<ConnectionType>,
    users: seq<User>,
    updatedAt: int)

  // ---------------------------------------------------------------------
  // searching and filtering

  /** `findIndex` by id: the first position holding a card with `id`. */
  function FirstIndex(cs: seq<Card>, id: string): (r: Option<nat>)
    ensures r.Some? ==> r.value < |cs| && cs[r.value].id == id && forall j | 0 <= j < r.value :: cs[j].id != id
    ensures r.None? ==> forall j | 0 <= j < |cs| :: cs[j].id != id
  {
    if |cs| == 0 then None
    else if cs[0].id == id then Some(0)
    else match FirstIndex(cs[1..], id)
      case None => None
      case Some(i) => Some(i + 1)
  }

  /** `find` by id: the first card with `id`, if any. */
  function FindCard(cs: seq<Card>, id: string): (r: Option<Card>)
    ensures r.Some? ==> r.value in cs && r.value.id == id
    ensures r.None? ==> forall c | c in cs :: c.id != id
  {
    match FirstIndex(cs, id)
    case None => None
    case Some(i) => Some(cs[i])
  }

  /** The cards whose id is not `id`, in order. */
  function WithoutCard(cs: seq<Card>, id: string): (r: seq<Card>)
    ensures |r| <= |cs|
    ensures forall c :: c in r <==> c in cs && c.id != id
  {
    Filter(cs, (c: Card) => c.id != id)
  }

  /** Removing a card id that no card carries keeps the sequence as it was. */
  lemma {:induction false} WithoutAbsentCard(cs: seq<Card>, id: string)
    requires forall c | c in cs :: c.id != id
    ensures WithoutCard(cs, id) == cs
  {
    FilterAll(cs, (c: Card) => c.id != id);
  }

  /** A connection starts or ends at the card. */
  predicate Touches(c: Connection, cardId: string) {
    c.startCardId == cardId || c.endCardId == cardId
  }

  /** The connections whose id is not `id`, in order. */
  function WithoutConnection(cs: seq<Connection>, id: string): (r: seq<Connection>)
    ensures |r| <= |cs|
    ensures forall c :: c in r <==> c in cs && c.id != id
  {
    Filter(cs, (c: Connection) => c.id != id)
  }

  /** No two connections share an id. */
  predicate ConnectionIdsUnique(cs: seq<Connection>) {
    forall i, j | 0 <= i < j < |cs| :: cs[i].id != cs[j].id
  }

  /** No two connections join the same start card to the same end card. */
  predicate NoDuplicatePairs(cs: seq<Connection>) {
    forall i, j | 0 <= i < j < |cs| ::
      !(cs[i].startCardId == cs[j].startCardId && cs[i].endCardId == cs[j].endCardId)
  }

  /** Every connection starts and ends at a card of the space. */
  predicate ConnectionsAttached(sp: Space) {
    forall c | c in sp.connections ::
      (exists k | k in sp.cards :: k.id == c.startCardId) && (exists k | k in sp.cards :: k.id == c.endCardId)
  }

  // ---------------------------------------------------------------------
  // users and space fields

  /** `addUserToSpace`: appends the user unless one with the same id is
      already there. */
  function AddUserToSpace(sp: Space, user: User): (r: Space)
    ensures r == sp.(users := r.users)
    ensures exists u | u in r.users :: u.id == user.id
    ensures (exists u | u in sp.users :: u.id == user.id) ==> r.users == sp.users
    ensures (forall u | u in sp.users :: u.id != user.id) ==> r.users == sp.users + [user]
  {
    if exists u | u in sp.users :: u.id == user.id then sp
    else
      assert (sp.users + [user])[|sp.users|] == user;
      sp.(users := sp.users + [user])
  }

  /** The ids of a user list. */
  function UserIds(us: seq<User>): (r: seq<string>)
    ensures |r| == |us| && forall i | 0 <= i < |us| :: r[i] == us[i].id
  {
    Map(us, (u: User) => u.id)
  }

  /** Adding users never creates two entries with the same id, and adding the
      same user twice is adding it once. */
  lemma AddUserKeepsIdsUnique(sp: Space, user: User)
    requires NoDup(UserIds(sp.users))
    ensures NoDup(UserIds(AddUserToSpace(sp, user).users))
    ensures AddUserToSpace(AddUserToSpace(sp, user), user) == AddUserToSpace(sp, user)
  {
    var r := AddUserToSpace(sp, user);
    if forall u | u in sp.users :: u.id != user.id {
      var ids := UserIds(r.users);
      forall i, j | 0 <= i < j < |ids| ensures ids[i] != ids[j] {
        if j == |sp.users| {
          assert sp.users[i] in sp.users;
        } else {
          assert UserIds(sp.users)[i] == ids[i] && UserIds(sp.users)[j] == ids[j];
        }
      }
    }
  }

  /** The keys an `updateSpace` call may carry, one per field of `Space`;
      `None` is an absent key. */
  datatype SpaceUpdate = SpaceUpdate(
    id: Option<string>,
    name: Option<string>,
    privacy: Option<string>,
    cards: Option<seq<Card>>,
    removedCards: Option<seq<Card>>,
    connections: Option<seq<Connection>>,
    connectionTypes: Option<seq<ConnectionType>>,
    users: Option<seq<User>>,
    updatedAt: Option<int>)

  /** JavaScript's `obj[key] = value` guarded by `if (obj[key])`: a string
      field takes the given value only when it is currently truthy. */
  function SetIfTruthy(current: string, value: Option<string>): (r: string)
    ensures current == "" ==> r == ""
    ensures value.None? ==> r == current
    ensures value.Some? && current != "" ==> r == value.value
  {
    if value.Some? && current != "" then value.value else current
  }

  /** `updateSpace` (mutation): each key of the update overwrites the field of
      the same name, but only when that field is currently truthy. A list is
      always truthy, even when empty, so a given list always replaces the
      field; a number is truthy unless it is 0. */
  function UpdateSpace(sp: Space, u: SpaceUpdate): (r: Space)
    ensures r.id == SetIfTruthy(sp.id, u.id)
    ensures r.name == SetIfTruthy(sp.name, u.name)
    ensures r.privacy == SetIfTruthy(sp.privacy, u.privacy)
    ensures r.cards == u.cards.GetOr(sp.cards) && r.removedCards == u.removedCards.GetOr(sp.removedCards)
    ensures r.connections == u.connections.GetOr(sp.connections)
    ensures r.connectionTypes == u.connectionTypes.GetOr(sp.connectionTypes)
    ensures r.users == u.users.GetOr(sp.users)
    ensures sp.updatedAt == 0 || u.updatedAt.None? ==> r.updatedAt == sp.updatedAt
    ensures sp.updatedAt != 0 && u.updatedAt.Some? ==> r.updatedAt == u.updatedAt.value
  {
    Space(
      SetIfTruthy(sp.id, u.id),
      SetIfTruthy(sp.name, u.name),
      SetIfTruthy(sp.privacy, u.privacy),
      u.cards.GetOr(sp.cards),
      u.removedCards.GetOr(sp.removedCards),
      u.connections.GetOr(sp.connections),
      u.connectionTypes.GetOr(sp.connectionTypes),
      u.users.GetOr(sp.users),
      if u.updatedAt.Some? && sp.updatedAt != 0 then u.updatedAt.value else sp.updatedAt)
  }

  /** Applying the same update twice is applying it once, and a falsy field is
      never filled in by an update. */
  lemma UpdateSpaceIdempotent(sp: Space, u: SpaceUpdate)
    ensures UpdateSpace(UpdateSpace(sp, u), u) == UpdateSpace(sp, u)
    ensures sp.name == "" ==> UpdateSpace(sp, u).name == ""
    ensures u.name.Some? && sp.name != "" ==> UpdateSpace(sp, u).name == u.name.value
    ensures u.cards == Some([]) ==> UpdateSpace(sp, u).cards == []
  {
  }

  // ---------------------------------------------------------------------
  // cards

  /** `incrementCardZ` (mutation): renumbers every card's z to its position,
      and gives the target `cards.length + 1`; nothing but z changes. */
  function IncrementCardZ(sp: Space, cardId: string): (r: Space)
    ensures r == sp.(cards := r.cards)
    ensures |r.cards| == |sp.cards|
    ensures forall i | 0 <= i < |sp.cards| :: r.cards[i] == sp.cards[i].(z := r.cards[i].z)
  {
    sp.(cards := seq(|sp.cards|, i requires 0 <= i < |sp.cards| =>
      sp.cards[i].(z := if sp.cards[i].id == cardId then |sp.cards| + 1 else i)))
  }

  /** After `incrementCardZ`, the target is strictly above every other card,
      the other cards hold distinct z values equal to their positions, and no z
      exceeds `cards.length + 1`. */
  lemma IncrementCardZRanks(sp: Space, cardId: string)
    ensures var r := IncrementCardZ(sp, cardId);
      && (forall i, j | 0 <= i < |r.cards| && 0 <= j < |r.cards| && r.cards[i].id == cardId && r.cards[j].id != cardId ::
            r.cards[j].z < r.cards[i].z)
      && (forall i | 0 <= i < |r.cards| && r.cards[i].id != cardId :: r.cards[i].z == i)
      && (forall i | 0 <= i < |r.cards| && r.cards[i].id == cardId :: r.cards[i].z == |sp.cards| + 1)
      && (forall i | 0 <= i < |r.cards| :: 0 <= r.cards[i].z <= |sp.cards| + 1)
  {
  }

  /** `moveCard` (mutation): every card with the id moves by the delta, and
      its coordinates are then floored at 0. */
  function MoveCard(sp: Space, cardId: string, dx: int, dy: int): (r: Space)
    ensures r == sp.(cards := r.cards)
    ensures |r.cards| == |sp.cards|
    ensures forall i | 0 <= i < |sp.cards| && sp.cards[i].id != cardId :: r.cards[i] == sp.cards[i]
    ensures forall i | 0 <= i < |sp.cards| && sp.cards[i].id == cardId ::
      var c, m := sp.cards[i], r.cards[i];
      && m == c.(x := m.x, y := m.y)
      && m.x >= 0 && m.x >= c.x + dx && (m.x == c.x + dx || m.x == 0)
      && m.y >= 0 && m.y >= c.y + dy && (m.y == c.y + dy || m.y == 0)
  {
    sp.(cards := seq(|sp.cards|, i requires 0 <= i < |sp.cards| =>
      var c := sp.cards[i];
      if c.id == cardId then
        c.(x := if c.x + dx > 0 then c.x + dx else 0, y := if c.y + dy > 0 then c.y + dy else 0)
      else c))
  }

  /** A move that the floor at 0 did not cut short is undone by the opposite
      move. */
  lemma MoveCardUndo(sp: Space, cardId: string, dx: int, dy: int)
    requires forall c | c in sp.cards && c.id == cardId :: c.x + dx >= 0 && c.y + dy >= 0 && c.x >= 0 && c.y >= 0
    ensures MoveCard(MoveCard(sp, cardId, dx, dy), cardId, -dx, -dy) == sp
  {
    var r := MoveCard(MoveCard(sp, cardId, dx, dy), cardId, -dx, -dy);
    assert forall i | 0 <= i < |sp.cards| :: sp.cards[i] in sp.cards;
    assert r.cards == sp.cards;
  }

  /** `removeCard` (mutation): takes every card with the id off `cards` and
      puts the first of them at the head of `removedCards`. */
  function RemoveCard(sp: Space, cardId: string): (r: Space)
    ensures r == sp.(cards := r.cards, removedCards := r.removedCards)
    ensures forall c :: c in r.cards <==> c in sp.cards && c.id != cardId
    ensures FindCard(sp.cards, cardId).None? ==> r == sp
    ensures FindCard(sp.cards, cardId).Some? ==> r.removedCards == [FindCard(sp.cards, cardId).value] + sp.removedCards
  {
    match FindCard(sp.cards, cardId)
    case None =>
      WithoutAbsentCard(sp.cards, cardId);
      sp
    case Some(card) => sp.(cards := WithoutCard(sp.cards, cardId), removedCards := [card] + sp.removedCards)
  }

  /** `removeCardPermanent` (mutation): takes every card with the id off both
      `cards` and `removedCards`. */
  function RemoveCardPermanent(sp: Space, cardId: string): (r: Space)
    ensures r == sp.(cards := r.cards, removedCards := r.removedCards)
    ensures forall c :: c in r.cards <==> c in sp.cards && c.id != cardId
    ensures forall c :: c in r.removedCards <==> c in sp.removedCards && c.id != cardId
  {
    sp.(cards := WithoutCard(sp.cards, cardId), removedCards := WithoutCard(sp.removedCards, cardId))
  }

  /** The stack without its entry at `i`, as `splice(i, 1)` leaves it. */
  function DeleteAt(s: seq<Card>, i: nat): (r: seq<Card>)
    requires i < |s|
    ensures |r| == |s| - 1
    ensures forall j | 0 <= j < i :: r[j] == s[j]
    ensures forall j | i <= j < |r| :: r[j] == s[j + 1]
  {
    s[..i] + s[i + 1..]
  }

  /** `restoreRemoved` in the array store: appends the first removed card with
      the id to `cards` and deletes exactly that entry from `removedCards`;
      when no removed card has the id, nothing changes. */
  function RestoreCard(sp: Space, cardId: string): (r: Space)
    ensures r == sp.(cards := r.cards, removedCards := r.removedCards)
    ensures FirstIndex(sp.removedCards, cardId).None? ==> r == sp
    ensures FirstIndex(sp.removedCards, cardId).Some? ==>
      var i := FirstIndex(sp.removedCards, cardId).value;
      && r.cards == sp.cards + [sp.removedCards[i]]
      && r.removedCards == DeleteAt(sp.removedCards, i)
  {
    match FirstIndex(sp.removedCards, cardId)
    case None => sp
    case Some(i) => sp.(cards := sp.cards + [sp.removedCards[i]], removedCards := DeleteAt(sp.removedCards, i))
  }

  /** The removed-card stack that `restoreCard` leaves as the JavaScript writes it:
      a missing id gives `findIndex` -1, and `splice(-1, 1)` then deletes the
      last (oldest) entry. */
  function RemovedAfterRestoreAsWritten(removed: seq<Card>, cardId: string): (r: seq<Card>)
    ensures FirstIndex(removed, cardId).Some? ==> r == DeleteAt(removed, FirstIndex(removed, cardId).value)
  {
    match FirstIndex(removed, cardId)
    case Some(i) => DeleteAt(removed, i)
    case None => if |removed| == 0 then removed else removed[..|removed| - 1]
  }

  /** Restoring an id that no removed card carries, as written, loses the
      oldest removed card although nothing was restored. */
  lemma RestoreAsWrittenDropsOldest(removed: seq<Card>, cardId: string)
    requires |removed| > 0 && forall c | c in removed :: c.id != cardId
    ensures RemovedAfterRestoreAsWritten(removed, cardId) == removed[..|removed| - 1]
    ensures |RemovedAfterRestoreAsWritten(removed, cardId)| == |removed| - 1
    ensures RestoreCard(Space("", "", "", [], removed, [], [], [], 0), cardId).removedCards == removed
  {
    assert forall j | 0 <= j < |removed| :: removed[j] in removed;
  }

  /** Removing a card and restoring it gives back the removed-card stack
      exactly, and the card returns at the end of `cards`. */
  lemma RemoveThenRestore(sp: Space, cardId: string)
    requires FindCard(sp.cards, cardId).Some?
    ensures var r := RestoreCard(RemoveCard(sp, cardId), cardId);
      && r.removedCards == sp.removedCards
      && r.cards == WithoutCard(sp.cards, cardId) + [FindCard(sp.cards, cardId).value]
  {
    var removed := RemoveCard(sp, cardId);
    assert FirstIndex(removed.removedCards, cardId) == Some(0);
    assert DeleteAt(removed.removedCards, 0) == sp.removedCards;
  }

  // ---------------------------------------------------------------------
  // connections

  /** `connectionAlreadyExists`: some connection has this start and end. */
  function ConnectionAlreadyExists(cs: seq<Connection>, startCardId: string, endCardId: string): (b: bool)
    ensures b <==> exists i | 0 <= i < |cs| :: cs[i].startCardId == startCardId && cs[i].endCardId == endCardId
  {
    if |cs| == 0 then false
    else if cs[0].startCardId == startCardId && cs[0].endCardId == endCardId then true
    else
      var rest := ConnectionAlreadyExists(cs[1..], startCardId, endCardId);
      assert rest ==> exists i | 0 <= i < |cs| :: cs[i].startCardId == startCardId && cs[i].endCardId == endCardId by {
        if rest {
          var i :| 0 <= i < |cs[1..]| && cs[1..][i].startCardId == startCardId && cs[1..][i].endCardId == endCardId;
          assert cs[i + 1] == cs[1..][i];
        }
      }
      assert (exists i | 0 <= i < |cs| :: cs[i].startCardId == startCardId && cs[i].endCardId == endCardId) ==> rest by {
        if exists i | 0 <= i < |cs| :: cs[i].startCardId == startCardId && cs[i].endCardId == endCardId {
          var i :| 0 <= i < |cs| && cs[i].startCardId == startCardId && cs[i].endCardId == endCardId;
          assert i > 0;
          assert cs[1..][i - 1] == cs[i];
        }
      }
      rest
  }

  /** `cardConnections`: the connections that start or end at the card, in
      order. */
  function CardConnections(cs: seq<Connection>, cardId: string): (r: seq<Connection>)
    ensures |r| <= |cs|
    ensures forall c :: c in r <==> c in cs && Touches(c, cardId)
  {
    Filter(cs, (c: Connection) => Touches(c, cardId))
  }

  /** `addConnection` (mutation): appends the connection. */
  function AddConnection(sp: Space, c: Connection): (r: Space)
    ensures r == sp.(connections := sp.connections + [c])
    ensures c in r.connections
  {
    sp.(connections := sp.connections + [c])
  }

  /** `removeConnection` (mutation): drops every connection with that id. */
  function RemoveConnection(sp: Space, connectionId: string): (r: Space)
    ensures r == sp.(connections := r.connections)
    ensures forall c :: c in r.connections <==> c in sp.connections && c.id != connectionId
  {
    sp.(connections := WithoutConnection(sp.connections, connectionId))
  }

  /** `removeConnectionType` (mutation): drops every type with that id. */
  function RemoveConnectionType(sp: Space, typeId: string): (r: Space)
    ensures r == sp.(connectionTypes := r.connectionTypes)
    ensures forall t :: t in r.connectionTypes <==> t in sp.connectionTypes && t.id != typeId
  {
    sp.(connectionTypes := WithoutType(sp.connectionTypes, typeId))
  }

  /** The types whose id is not `id`, in order. */
  function WithoutType(ts: seq<ConnectionType>, id: string): (r: seq<ConnectionType>)
    ensures |r| <= |ts|
    ensures forall t :: t in r <==> t in ts && t.id != id
  {
    Filter(ts, (t: ConnectionType) => t.id != id)
  }
}
