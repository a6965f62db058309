/** The actions of `currentCards`: each commits mutations of the normalized
    store and emits, in order, the operations it queues for the remote API and
    the broadcasts it sends to peers. Dispatches into other store modules
    (history, connections, user counters, the card map) are not part of this
    model. */
module CardActions {
  import opened Common
  import opened Seqs
  import opened Entities
  import opened CurrentCards

  /** `minImageWidth` in `resize`. */
  const MinImageWidth: int := 64
  /** `Number.MAX_SAFE_INTEGER`, 2^53 - 1. */
  const MaxSafeInteger: int := 9007199254740991
  /** The `maxInt` of `incrementZ`: above it, all z values are cleared first. */
  const ZResetThreshold: int := MaxSafeInteger - 1000

  /** The store mutation a receiving peer runs for a broadcast. The JavaScript
      names it by string; here it is a closed set. */
  datatype Handler =
    | CreateHandler             // 'currentCards/create'
    | UpdateHandler             // 'currentCards/update'
    | RemoveHandler             // 'currentCards/remove'
    | DeleteCardHandler         // 'currentCards/deleteCard'
    | RestoreRemovedHandler     // 'currentCards/restoreRemoved'
    | MoveWhileDraggingHandler  // 'currentCards/moveWhileDraggingBroadcast'
    | MoveBroadcastHandler      // 'currentCards/moveBroadcast'
    | UpdatePathsHandler        // 'currentConnections/updatePathsWhileDraggingBroadcast'

  /** The payloads that actions queue and broadcast. */
  datatype Body =
    | CardBody(card: Card)
    | PatchBody(patch: CardPatch)
    | MovesBody(moves: seq<Position>)
    | ConnectionsBody(connectionIds: seq<string>)
    | ConnectionBody(connectionId: string)

  /** One dispatch of an action: `api/addToQueue` or `broadcast/update`. */
  datatype Event =
    | Queue(op: Operation<Body>)
    | Broadcast(kind: string, handler: Handler, body: Body)

  /** The store after an action, with the events it emitted in order. */
  datatype Step = Step(store: Store, events: seq<Event>)

  /** The two dispatches of the `update` action and of `clearAllZs`: queue an
      `updateCard` operation, then broadcast it to `currentCards/update`. */
  function UpdateEvents(p: CardPatch): seq<Event> {
    [Queue(Operation("updateCard", PatchBody(p))), Broadcast("updateCard", UpdateHandler, PatchBody(p))]
  }

  // ---------------------------------------------------------------------
  // z order

  /** `utils.highestCardZ`: the largest z among the cards, or 0. */
  function HighestZ(cs: seq<Card>): (z: int)
    ensures z >= 0
    ensures forall i | 0 <= i < |cs| :: cs[i].z <= z
    ensures z == 0 || exists i | 0 <= i < |cs| :: cs[i].z == z
    decreases |cs|
  {
    if |cs| == 0 then 0
    else
      var rest := HighestZ(cs[..|cs| - 1]);
      assert forall i | 0 <= i < |cs| - 1 :: cs[..|cs| - 1][i] == cs[i];
      if cs[|cs| - 1].z > rest then cs[|cs| - 1].z else rest
  }

  /** The largest z in the store bounds every active card's z. */
  lemma HighestZBoundsStore(s: Store, k: string)
    requires Valid(s) && k in s.cards
    ensures s.cards[k].z <= HighestZ(All(s))
  {
    var i :| 0 <= i < |s.ids| && s.ids[i] == k;
    assert All(s)[i] == s.cards[k];
  }

  /** The body `{ id, z }`. */
  function ZPatch(id: string, z: int): CardPatch {
    IdOnly(id).(z := Some(z))
  }

  /** A `{ id, z }` body sets the z and nothing else. */
  lemma ApplyZPatch(c: Card, id: string, z: int)
    ensures ApplyPatch(c, ZPatch(id, z)) == c.(z := z)
  {
  }

  /** Commits `{ id, z: 0 }` for each listed card, queueing and broadcasting
      each one. */
  function ClearZs(s: Store, ids: seq<string>): (r: Step)
    requires Valid(s)
    ensures Valid(r.store)
    ensures r.store.ids == s.ids && r.store.removedCards == s.removedCards
    ensures r.store.cards.Keys == s.cards.Keys
    ensures |r.events| == 2 * |ids|
    decreases |ids|
  {
    if |ids| == 0 then Step(s, [])
    else
      var body := ZPatch(ids[0], 0);
      var rest := ClearZs(Update(s, body), ids[1..]);
      Step(rest.store, UpdateEvents(body) + rest.events)
  }

  /** Clearing sets the z of each listed card to 0 and leaves every other
      card, and every other field, as it was. */
  lemma {:induction false} ClearZsEffect(s: Store, ids: seq<string>)
    requires Valid(s)
    ensures forall k | k in s.cards ::
      ClearZs(s, ids).store.cards[k] == (if k in ids then s.cards[k].(z := 0) else s.cards[k])
    decreases |ids|
  {
    if |ids| > 0 {
      var body := ZPatch(ids[0], 0);
      var next := Update(s, body);
      ClearZsEffect(next, ids[1..]);
      forall k | k in s.cards
        ensures ClearZs(s, ids).store.cards[k] == (if k in ids then s.cards[k].(z := 0) else s.cards[k])
      {
        if k == ids[0] {
          ApplyZPatch(s.cards[k], k, 0);
        }
        assert k in ids <==> k == ids[0] || k in ids[1..];
      }
    }
  }

  /** `clearAllZs`: every active card's z becomes 0; nothing else changes. */
  function ClearAllZs(s: Store): (r: Step)
    requires Valid(s)
    ensures Valid(r.store)
    ensures r.store.ids == s.ids && r.store.removedCards == s.removedCards
    ensures r.store.cards.Keys == s.cards.Keys
    ensures forall k | k in s.cards :: r.store.cards[k] == s.cards[k].(z := 0)
  {
    // `all` lists the cards in `ids` order, so `card.id` runs over `ids`.
    ClearZsEffect(s, s.ids);
    ClearZs(s, s.ids)
  }

  /** The z `incrementZ` gives a card: one more than the highest z, or 2 when
      that highest z is above `MAX_SAFE_INTEGER - 1000`. */
  function FrontZ(s: Store): int
    requires Valid(s)
  {
    var highest := HighestZ(All(s));
    if highest > ZResetThreshold then 1 + 1 else highest + 1
  }

  /** What `incrementZ` does before it writes the card's z: `clearAllZs` when
      the highest z is above `MAX_SAFE_INTEGER - 1000`, nothing otherwise. */
  function Leveled(s: Store): (r: Step)
    requires Valid(s)
    ensures Valid(r.store)
    ensures r.store.ids == s.ids && r.store.removedCards == s.removedCards
    ensures r.store.cards.Keys == s.cards.Keys
  {
    if HighestZ(All(s)) > ZResetThreshold then ClearAllZs(s) else Step(s, [])
  }

  /** `incrementZ`: brings an unlocked card to the front (see
      `IncrementZBringsToFront`, `IncrementZResets` and `IncrementZPlain`). The
      new z is queued and broadcast only when the user can edit the space. */
  function IncrementZ(s: Store, id: string, userCanEdit: bool): (r: Step)
    requires Valid(s)
    ensures id !in s.cards || s.cards[id].isLocked ==> r == Step(s, [])
    ensures Valid(r.store)
    ensures r.store.ids == s.ids && r.store.removedCards == s.removedCards
    ensures r.store.cards.Keys == s.cards.Keys
  {
    if id !in s.cards || s.cards[id].isLocked then Step(s, [])
    else
      var prior := Leveled(s);
      var body := ZPatch(id, FrontZ(s));
      Step(Update(prior.store, body), prior.events + (if userCanEdit then UpdateEvents(body) else []))
  }

  /** When the highest z is above `MAX_SAFE_INTEGER - 1000`, every other card's
      z is cleared to 0 and the card gets 2; nothing else changes. */
  lemma IncrementZResets(s: Store, id: string, userCanEdit: bool)
    requires Valid(s) && id in s.cards && !s.cards[id].isLocked
    requires HighestZ(All(s)) > ZResetThreshold
    ensures var r := IncrementZ(s, id, userCanEdit);
      && r.store.cards[id] == s.cards[id].(z := 2)
      && (forall k | k in s.cards && k != id :: r.store.cards[k] == s.cards[k].(z := 0))
  {
    var cleared := ClearAllZs(s);
    ApplyZPatch(cleared.store.cards[id], id, 2);
  }

  /** Otherwise the card's z becomes one more than the highest, no other card
      changes, and a user who cannot edit emits nothing. */
  lemma IncrementZPlain(s: Store, id: string, userCanEdit: bool)
    requires Valid(s) && id in s.cards && !s.cards[id].isLocked
    requires HighestZ(All(s)) <= ZResetThreshold
    ensures var r := IncrementZ(s, id, userCanEdit);
      && r.store.cards[id] == s.cards[id].(z := HighestZ(All(s)) + 1)
      && (forall k | k in s.cards && k != id :: r.store.cards[k] == s.cards[k])
      && (!userCanEdit ==> r.events == [])
  {
    ApplyZPatch(s.cards[id], id, HighestZ(All(s)) + 1);
  }

  /** After `incrementZ` on an unlocked card, its z is strictly above every
      other card's, and only its z changed. */
  lemma IncrementZBringsToFront(s: Store, id: string, userCanEdit: bool)
    requires Valid(s) && id in s.cards && !s.cards[id].isLocked
    ensures var r := IncrementZ(s, id, userCanEdit);
      && (forall k | k in s.cards && k != id :: r.store.cards[k].z < r.store.cards[id].z)
      && r.store.cards[id] == s.cards[id].(z := r.store.cards[id].z)
  {
    if HighestZ(All(s)) > ZResetThreshold {
      IncrementZResets(s, id, userCanEdit);
    } else {
      IncrementZPlain(s, id, userCanEdit);
      forall k | k in s.cards && k != id
        ensures s.cards[k].z <= HighestZ(All(s))
      {
        HighestZBoundsStore(s, k);
      }
    }
  }

  // ---------------------------------------------------------------------
  // create

  /** The fields of an `add` call that the model keeps: the position, an
      optional name and id (empty when not given) and a background colour. */
  datatype AddRequest = AddRequest(x: int, y: int, name: string, id: string, backgroundColor: string)

  /** The card `add` builds: the given id or a fresh one, z one above the
      highest, the current user as owner, and the empty card's dimensions. */
  function NewCard(s: Store, req: AddRequest, freshId: string, userId: string, emptyWidth: int, emptyHeight: int): Card
    requires Valid(s)
  {
    Card(
      if req.id != "" then req.id else freshId,
      req.x, req.y, HighestZ(All(s)) + 1, emptyWidth, emptyHeight,
      req.name, 0, userId, "", req.backgroundColor, false, false, None)
  }

  /** `add`: unless the space is over its card limit, queues and broadcasts the
      new card and creates it in front of every other card. */
  function Add(s: Store, req: AddRequest, freshId: string, userId: string, emptyWidth: int, emptyHeight: int,
               shouldPreventAddCard: bool): (r: Step)
    requires Valid(s)
    ensures shouldPreventAddCard ==> r == Step(s, [])
    ensures !shouldPreventAddCard ==>
      var card := NewCard(s, req, freshId, userId, emptyWidth, emptyHeight);
      && |r.events| == 2
      && r.events[0] == Queue(Operation("createCard", CardBody(card)))
      && r.events[1] == Broadcast("createCard", CreateHandler, CardBody(card))
    ensures !shouldPreventAddCard && (req.id != "" || freshId != "") ==>
      var id := if req.id != "" then req.id else freshId;
      && id in r.store.cards
      && r.store.ids == s.ids + [id]
      && (forall k | k in s.cards && k != id :: s.cards[k].z < r.store.cards[id].z)
    ensures (!shouldPreventAddCard && req.id == "" && freshId != "" && freshId !in s.cards
             && !InRemoved(s.removedCards, freshId)) ==> Valid(r.store)
  {
    if shouldPreventAddCard then Step(s, [])
    else
      var card := NewCard(s, req, freshId, userId, emptyWidth, emptyHeight);
      assert forall k | k in s.cards :: s.cards[k].z < card.z by {
        forall k | k in s.cards ensures s.cards[k].z < card.z {
          HighestZBoundsStore(s, k);
        }
      }
      Step(Create(s, card), [Queue(Operation("createCard", CardBody(card))), Broadcast("createCard", CreateHandler, CardBody(card))])
  }

  /** JavaScript's `a || b` on numbers. */
  function OrInt(a: int, b: int): int {
    if a != 0 then a else b
  }

  /** The id `addMultiple` gives an incoming card: its own, or else the one
      `nanoid` generates for it. */
  function ChosenId(c: Card, freshId: string): string {
    if c.id != "" then c.id else freshId
  }

  /** The ids `addMultiple` gives the incoming cards, in order. */
  function ChosenIds(newCards: seq<Card>, freshIds: seq<string>): (r: seq<string>)
    requires |freshIds| == |newCards|
    ensures |r| == |newCards|
    ensures forall i | 0 <= i < |r| :: r[i] == ChosenId(newCards[i], freshIds[i])
  {
    seq(|newCards|, i requires 0 <= i < |newCards| => ChosenId(newCards[i], freshIds[i]))
  }

  /** The chosen ids of a non-empty list: the first card's, then the rest's. */
  lemma ChosenIdsCons(newCards: seq<Card>, freshIds: seq<string>)
    requires |freshIds| == |newCards| > 0
    ensures ChosenIds(newCards, freshIds)
      == [ChosenId(newCards[0], freshIds[0])] + ChosenIds(newCards[1..], freshIds[1..])
  {
    var ids, tailIds := ChosenIds(newCards, freshIds), ChosenIds(newCards[1..], freshIds[1..]);
    assert forall j | 0 <= j < |tailIds| :: tailIds[j] == ids[j + 1];
  }

  /** The card `addMultiple` builds from an incoming one: the given id, the
      incoming position, name, frame and colour, the incoming z unless it is
      0 (then `zFallback`), the incoming size unless 0 (then the empty card's),
      and the current user as author. */
  function Prepared(c: Card, id: string, zFallback: int, userId: string, emptyWidth: int, emptyHeight: int): Card {
    Card(id, c.x, c.y, OrInt(c.z, zFallback), OrInt(c.width, emptyWidth), OrInt(c.height, emptyHeight),
         c.name, c.frameId, userId, "", c.backgroundColor, false, false, None)
  }

  /** `addMultiple`: creates each card in turn, queueing and broadcasting it.
      A card without a z gets one more than the number of active cards at
      that moment (not one more than the highest z). `freshIds` are the ids
      `nanoid` would generate, one per card. */
  function AddMultiple(s: Store, newCards: seq<Card>, freshIds: seq<string>, userId: string,
                       emptyWidth: int, emptyHeight: int): (r: Step)
    requires |freshIds| == |newCards|
    ensures |r.events| == 2 * |newCards|
    ensures |s.ids| <= |r.store.ids| && r.store.ids[..|s.ids|] == s.ids
    ensures (forall i | 0 <= i < |newCards| :: newCards[i].id != "" || freshIds[i] != "") ==>
      |r.store.ids| == |s.ids| + |newCards|
    ensures r.store.removedCards == s.removedCards
    decreases |newCards|
  {
    if |newCards| == 0 then Step(s, [])
    else
      var card := Prepared(newCards[0], ChosenId(newCards[0], freshIds[0]), |s.ids| + 1, userId, emptyWidth, emptyHeight);
      var next := Create(s, card);
      var rest := AddMultiple(next, newCards[1..], freshIds[1..], userId, emptyWidth, emptyHeight);
      assert next.ids[..|s.ids|] == s.ids;
      assert forall i | 1 <= i < |newCards| :: newCards[1..][i - 1] == newCards[i] && freshIds[1..][i - 1] == freshIds[i];
      Step(rest.store, [Queue(Operation("createCard", CardBody(card))), Broadcast("createCard", CreateHandler, CardBody(card))] + rest.events)
  }

  /** The cards `addMultiple` builds, in order, when the store holds `base`
      active ids before it starts (and each chosen id is new to `ids`). */
  function PreparedCards(base: int, newCards: seq<Card>, freshIds: seq<string>, userId: string,
                         emptyWidth: int, emptyHeight: int): (r: seq<Card>)
    requires |freshIds| == |newCards|
    ensures |r| == |newCards|
    ensures forall i | 0 <= i < |r| :: r[i].id == ChosenId(newCards[i], freshIds[i])
    ensures forall i | 0 <= i < |r| ::
      r[i] == Prepared(newCards[i], ChosenId(newCards[i], freshIds[i]), base + i + 1, userId, emptyWidth, emptyHeight)
  {
    seq(|newCards|, i requires 0 <= i < |newCards| =>
      Prepared(newCards[i], ChosenId(newCards[i], freshIds[i]), base + i + 1, userId, emptyWidth, emptyHeight))
  }

  /** The prepared cards of a non-empty list: the first, then the rest's
      with one more active id. */
  lemma PreparedCardsCons(base: int, newCards: seq<Card>, freshIds: seq<string>, userId: string,
                          emptyWidth: int, emptyHeight: int)
    requires |freshIds| == |newCards| > 0
    ensures PreparedCards(base, newCards, freshIds, userId, emptyWidth, emptyHeight)[0]
      == Prepared(newCards[0], ChosenId(newCards[0], freshIds[0]), base + 1, userId, emptyWidth, emptyHeight)
    ensures PreparedCards(base, newCards, freshIds, userId, emptyWidth, emptyHeight)[1..]
      == PreparedCards(base + 1, newCards[1..], freshIds[1..], userId, emptyWidth, emptyHeight)
  {
    var all := PreparedCards(base, newCards, freshIds, userId, emptyWidth, emptyHeight);
    var tail := PreparedCards(base + 1, newCards[1..], freshIds[1..], userId, emptyWidth, emptyHeight);
    assert forall j | 0 <= j < |tail| :: tail[j] == all[j + 1];
  }

  /** `addMultiple`, given ids from `nanoid` (which are never empty), appends
      the chosen ids to `ids` in order. */
  lemma {:induction false} AddMultipleAppendsIds(s: Store, newCards: seq<Card>, freshIds: seq<string>, userId: string,
                                                 emptyWidth: int, emptyHeight: int)
    requires |freshIds| == |newCards|
    requires forall i | 0 <= i < |freshIds| :: freshIds[i] != ""
    ensures AddMultiple(s, newCards, freshIds, userId, emptyWidth, emptyHeight).store.ids
      == s.ids + ChosenIds(newCards, freshIds)
    decreases |newCards|
  {
    if |newCards| > 0 {
      var c := newCards[0];
      var card := Prepared(c, ChosenId(c, freshIds[0]), |s.ids| + 1, userId, emptyWidth, emptyHeight);
      var next := Create(s, card);
      var tailCards, tailFresh := newCards[1..], freshIds[1..];
      assert forall i | 0 <= i < |tailFresh| :: tailFresh[i] == freshIds[i + 1];
      AddMultipleAppendsIds(next, tailCards, tailFresh, userId, emptyWidth, emptyHeight);
      assert card.id == ChosenId(c, freshIds[0]) != "";
      ChosenIdsCons(newCards, freshIds);
      AppendAssoc(s.ids, [card.id], ChosenIds(tailCards, tailFresh));
    }
  }

  /** One step of `addMultiple`: the first card is built and created, then
      the rest are added to the resulting store. */
  lemma AddMultipleUnfold(s: Store, newCards: seq<Card>, freshIds: seq<string>, userId: string,
                          emptyWidth: int, emptyHeight: int)
    requires |freshIds| == |newCards| > 0 && freshIds[0] != ""
    ensures var card := Prepared(newCards[0], ChosenId(newCards[0], freshIds[0]), |s.ids| + 1, userId, emptyWidth, emptyHeight);
      var next := Create(s, card);
      && AddMultiple(s, newCards, freshIds, userId, emptyWidth, emptyHeight).store
         == AddMultiple(next, newCards[1..], freshIds[1..], userId, emptyWidth, emptyHeight).store
      && card.id in next.cards && next.cards[card.id] == card
      && (forall k | k in s.cards && k != card.id :: k in next.cards && next.cards[k] == s.cards[k])
      && |next.ids| == |s.ids| + 1
  {
  }

  /** `addMultiple`, given ids from `nanoid`, keeps every card whose id it
      does not choose. */
  lemma {:induction false} AddMultipleKeepsOthers(s: Store, newCards: seq<Card>, freshIds: seq<string>, userId: string,
                                                  emptyWidth: int, emptyHeight: int)
    requires |freshIds| == |newCards|
    requires forall i | 0 <= i < |freshIds| :: freshIds[i] != ""
    ensures var r := AddMultiple(s, newCards, freshIds, userId, emptyWidth, emptyHeight).store;
      var built := PreparedCards(|s.ids|, newCards, freshIds, userId, emptyWidth, emptyHeight);
      forall k | k in s.cards && LastCard(built, k).None? :: k in r.cards && r.cards[k] == s.cards[k]
    decreases |newCards|
  {
    if |newCards| > 0 {
      var card := Prepared(newCards[0], ChosenId(newCards[0], freshIds[0]), |s.ids| + 1, userId, emptyWidth, emptyHeight);
      var next := Create(s, card);
      var tailCards, tailFresh := newCards[1..], freshIds[1..];
      var built := PreparedCards(|s.ids|, newCards, freshIds, userId, emptyWidth, emptyHeight);
      var tailBuilt := PreparedCards(|s.ids| + 1, tailCards, tailFresh, userId, emptyWidth, emptyHeight);
      AddMultipleUnfold(s, newCards, freshIds, userId, emptyWidth, emptyHeight);
      PreparedCardsCons(|s.ids|, newCards, freshIds, userId, emptyWidth, emptyHeight);
      assert forall i | 0 <= i < |tailFresh| :: tailFresh[i] == freshIds[i + 1];
      AddMultipleKeepsOthers(next, tailCards, tailFresh, userId, emptyWidth, emptyHeight);
      forall k | k in s.cards && LastCard(built, k).None?
        ensures LastCard(tailBuilt, k).None? && k != card.id
      {
        LastCardCons(built, k);
      }
    }
  }

  /** `addMultiple`, given ids from `nanoid`, leaves under each chosen id the
      last card it built for that id. */
  lemma {:induction false} AddMultipleStoresBuilt(s: Store, newCards: seq<Card>, freshIds: seq<string>, userId: string,
                                                  emptyWidth: int, emptyHeight: int)
    requires |freshIds| == |newCards|
    requires forall i | 0 <= i < |freshIds| :: freshIds[i] != ""
    ensures var r := AddMultiple(s, newCards, freshIds, userId, emptyWidth, emptyHeight).store;
      var built := PreparedCards(|s.ids|, newCards, freshIds, userId, emptyWidth, emptyHeight);
      forall k | LastCard(built, k).Some? :: k in r.cards && r.cards[k] == LastCard(built, k).value
    decreases |newCards|
  {
    if |newCards| > 0 {
      var card := Prepared(newCards[0], ChosenId(newCards[0], freshIds[0]), |s.ids| + 1, userId, emptyWidth, emptyHeight);
      var next := Create(s, card);
      var tailCards, tailFresh := newCards[1..], freshIds[1..];
      var built := PreparedCards(|s.ids|, newCards, freshIds, userId, emptyWidth, emptyHeight);
      var tailBuilt := PreparedCards(|s.ids| + 1, tailCards, tailFresh, userId, emptyWidth, emptyHeight);
      AddMultipleUnfold(s, newCards, freshIds, userId, emptyWidth, emptyHeight);
      PreparedCardsCons(|s.ids|, newCards, freshIds, userId, emptyWidth, emptyHeight);
      assert forall i | 0 <= i < |tailFresh| :: tailFresh[i] == freshIds[i + 1];
      AddMultipleStoresBuilt(next, tailCards, tailFresh, userId, emptyWidth, emptyHeight);
      AddMultipleKeepsOthers(next, tailCards, tailFresh, userId, emptyWidth, emptyHeight);
      forall k | LastCard(built, k).Some? && LastCard(tailBuilt, k).None?
        ensures LastCard(built, k) == Some(card)
      {
        LastCardCons(built, k);
      }
    }
  }

  /** With distinct chosen ids, the i-th incoming card is stored under its
      id, built from its own fields, with the z `card.z || ids.length + 1`
      evaluated just before it is created. */
  lemma AddMultipleStoresDistinct(s: Store, newCards: seq<Card>, freshIds: seq<string>, userId: string,
                                  emptyWidth: int, emptyHeight: int)
    requires |freshIds| == |newCards|
    requires forall i | 0 <= i < |freshIds| :: freshIds[i] != ""
    requires NoDup(ChosenIds(newCards, freshIds))
    ensures var r := AddMultiple(s, newCards, freshIds, userId, emptyWidth, emptyHeight).store;
      var ids := ChosenIds(newCards, freshIds);
      forall i | 0 <= i < |ids| ::
        && ids[i] in r.cards
        && r.cards[ids[i]] == Prepared(newCards[i], ids[i], |s.ids| + i + 1, userId, emptyWidth, emptyHeight)
        && r.cards[ids[i]].z == OrInt(newCards[i].z, |s.ids| + i + 1)
  {
    AddMultipleStoresBuilt(s, newCards, freshIds, userId, emptyWidth, emptyHeight);
    var ids := ChosenIds(newCards, freshIds);
    var built := PreparedCards(|s.ids|, newCards, freshIds, userId, emptyWidth, emptyHeight);
    forall i | 0 <= i < |ids| ensures LastCard(built, ids[i]) == Some(built[i]) {
      LastWithIsLast(built, CardId, ids[i], i);
    }
  }

  /** `addMultiple` keeps the store invariant when every chosen id is new:
      distinct, not active and not on the removed stack. */
  lemma {:induction false} AddMultipleKeepsValid(s: Store, newCards: seq<Card>, freshIds: seq<string>, userId: string,
                                                 emptyWidth: int, emptyHeight: int)
    requires |freshIds| == |newCards| && Valid(s)
    requires var ids := ChosenIds(newCards, freshIds);
      && NoDup(ids)
      && (forall i | 0 <= i < |ids| :: ids[i] != "" && ids[i] !in s.cards && !InRemoved(s.removedCards, ids[i]))
    ensures Valid(AddMultiple(s, newCards, freshIds, userId, emptyWidth, emptyHeight).store)
    decreases |newCards|
  {
    if |newCards| > 0 {
      var c := newCards[0];
      var ids := ChosenIds(newCards, freshIds);
      var card := Prepared(c, ids[0], |s.ids| + 1, userId, emptyWidth, emptyHeight);
      var next := Create(s, card);
      var tailCards, tailFresh := newCards[1..], freshIds[1..];
      var tailIds := ChosenIds(tailCards, tailFresh);
      assert forall i | 0 <= i < |tailIds| :: tailIds[i] == ids[i + 1];
      assert Valid(next);
      forall i | 0 <= i < |tailIds|
        ensures tailIds[i] != "" && tailIds[i] !in next.cards && !InRemoved(next.removedCards, tailIds[i])
      {
        assert tailIds[i] != ids[0];
      }
      AddMultipleKeepsValid(next, tailCards, tailFresh, userId, emptyWidth, emptyHeight);
    }
  }

  /** Unlike `add`, `addMultiple` does not bring a card to the front: a card
      given without a z gets `ids.length + 1`, which lies behind any card whose
      z is already higher. */
  lemma AddMultipleMayLandBehind(s: Store, c: Card, freshId: string, userId: string,
                                 emptyWidth: int, emptyHeight: int, k: string)
    requires freshId != "" && c.z == 0
    requires k in s.cards && s.cards[k].z > |s.ids| + 1 && k != ChosenId(c, freshId)
    ensures var r := AddMultiple(s, [c], [freshId], userId, emptyWidth, emptyHeight).store;
      && ChosenId(c, freshId) in r.cards && k in r.cards
      && r.cards[ChosenId(c, freshId)].z == |s.ids| + 1
      && r.cards[ChosenId(c, freshId)].z < r.cards[k].z
  {
    AddMultipleStoresDistinct(s, [c], [freshId], userId, emptyWidth, emptyHeight);
    assert ChosenIds([c], [freshId])[0] == ChosenId(c, freshId);
  }

  // ---------------------------------------------------------------------
  // mergeUnique

  /** The partial `mergeUnique` builds: `{ id }` plus every key whose value
      differs between the stored card and the incoming one. */
  function Diff(prev: Card, next: Card): CardPatch {
    CardPatch(
      next.id,
      if prev.x != next.x then Some(next.x as real) else None,
      if prev.y != next.y then Some(next.y as real) else None,
      if prev.z != next.z then Some(next.z) else None,
      if prev.width != next.width then Some(next.width) else None,
      if prev.height != next.height then Some(next.height) else None,
      if prev.name != next.name then Some(next.name) else None,
      if prev.frameId != next.frameId then Some(next.frameId) else None,
      if prev.userId != next.userId then Some(next.userId) else None,
      if prev.nameUpdatedByUserId != next.nameUpdatedByUserId then Some(next.nameUpdatedByUserId) else None,
      if prev.backgroundColor != next.backgroundColor then Some(next.backgroundColor) else None,
      if prev.isLocked != next.isLocked then Some(next.isLocked) else None,
      if prev.isRemoved != next.isRemoved then Some(next.isRemoved) else None,
      if prev.resizeWidth != next.resizeWidth then Some(next.resizeWidth) else None)
  }

  /** Applying the difference to the stored card yields the incoming card, and
      the difference is empty exactly when the two cards are equal. */
  lemma DiffRoundTrip(prev: Card, next: Card)
    requires prev.id == next.id
    ensures ApplyPatch(prev, Diff(prev, next)) == next
    ensures !HasFields(Diff(prev, next)) <==> prev == next
  {
    RoundIsNearest(next.x as real, next.x);
    RoundIsNearest(next.y as real, next.y);
  }

  /** The id a card is stored under. */
  function CardId(c: Card): string {
    c.id
  }

  /** The last card in `cs` with id `id`, if any. */
  function LastCard(cs: seq<Card>, id: string): Option<Card> {
    LastWith(cs, CardId, id)
  }

  /** The store after a merge, and the partial updates it committed. */
  datatype Merged = Merged(store: Store, commits: seq<CardPatch>)

  /** One incoming card that is in the store: commits the difference when
      there is one. Either way the card ends up equal to the incoming one,
      and no other card changes. */
  function MergeOne(s: Store, c: Card): (r: Merged)
    requires Valid(s) && c.id in s.cards
    ensures Valid(r.store)
    ensures r.store.ids == s.ids && r.store.removedCards == s.removedCards
    ensures r.store.cards.Keys == s.cards.Keys
    ensures r.store.cards[c.id] == c
    ensures forall k | k in s.cards && k != c.id :: r.store.cards[k] == s.cards[k]
    ensures r.commits == [] <==> s.cards[c.id] == c
    ensures |r.commits| <= 1
    ensures forall i | 0 <= i < |r.commits| :: HasFields(r.commits[i]) && r.commits[i].id == c.id
  {
    var patch := Diff(s.cards[c.id], c);
    DiffRoundTrip(s.cards[c.id], c);
    if !HasFields(patch) then Merged(s, [])
    else Merged(Update(s, patch), [patch])
  }

  /** `mergeUnique`: for each incoming card, commits an `update` holding only
      the keys that differ, and commits nothing when none does. An incoming
      card that is not in the store throws, so the cards after it are not
      merged. */
  function MergeUnique(s: Store, newCards: seq<Card>): (r: Merged)
    requires Valid(s)
    ensures Valid(r.store)
    ensures r.store.ids == s.ids && r.store.removedCards == s.removedCards
    ensures r.store.cards.Keys == s.cards.Keys
    ensures |r.commits| <= |newCards|
    ensures forall i | 0 <= i < |r.commits| :: HasFields(r.commits[i]) && r.commits[i].id in s.cards
    decreases |newCards|
  {
    if |newCards| == 0 then Merged(s, [])
    else if newCards[0].id !in s.cards then Merged(s, [])
    else
      var one := MergeOne(s, newCards[0]);
      var rest := MergeUnique(one.store, newCards[1..]);
      assert forall i | |one.commits| <= i < |one.commits + rest.commits| ::
        (one.commits + rest.commits)[i] == rest.commits[i - |one.commits|];
      Merged(rest.store, one.commits + rest.commits)
  }

  /** One step of `mergeUnique` over an existing card: merge it, then the rest. */
  lemma MergeUniqueUnfold(s: Store, newCards: seq<Card>)
    requires Valid(s) && |newCards| > 0 && newCards[0].id in s.cards
    ensures MergeUnique(s, newCards).store == MergeUnique(MergeOne(s, newCards[0]).store, newCards[1..]).store
  {
  }

  /** The last card with an id: the tail's when the tail has one, else the head
      when it carries the id. */
  lemma LastCardCons(cs: seq<Card>, k: string)
    requires |cs| > 0
    ensures LastCard(cs[1..], k).Some? ==> LastCard(cs, k) == LastCard(cs[1..], k)
    ensures LastCard(cs[1..], k).None? && cs[0].id == k ==> LastCard(cs, k) == Some(cs[0])
    ensures LastCard(cs[1..], k).None? && cs[0].id != k ==> LastCard(cs, k).None?
  {
  }

  /** When every incoming card exists, `mergeUnique` leaves each card equal to
      the last incoming card with its id, and every other card as it was. */
  lemma {:induction false} MergeUniqueStoresIncoming(s: Store, newCards: seq<Card>)
    requires Valid(s)
    requires forall c | c in newCards :: c.id in s.cards
    ensures forall k | k in s.cards :: MergeUnique(s, newCards).store.cards[k] == LastCard(newCards, k).GetOr(s.cards[k])
    decreases |newCards|
  {
    if |newCards| > 0 {
      var tail := newCards[1..];
      assert forall d | d in tail :: d in newCards;
      var c := newCards[0];
      var next := MergeOne(s, c).store;
      MergeUniqueStoresIncoming(next, tail);
      MergeUniqueUnfold(s, newCards);
      forall k | k in s.cards ensures MergeUnique(s, newCards).store.cards[k] == LastCard(newCards, k).GetOr(s.cards[k]) {
        LastCardCons(newCards, k);
      }
    }
  }

  // ---------------------------------------------------------------------
  // move (drag) and resize

  /** A screen position or offset. */
  datatype Point = Point(x: int, y: int)

  /** The positions a drag frame computes, the connections whose paths it
      redraws, and what it broadcasts and queues. */
  datatype Dragged = Dragged(moves: seq<Position>, connectionIds: seq<string>, events: seq<Event>)

  /** The cards a drag moves: the selection, or else the card being dragged. */
  function DragIds(selected: seq<string>, draggingId: string): seq<string> {
    if |selected| > 0 then selected else [draggingId]
  }

  /** The cards among `ids` that exist, in order. */
  function PresentCards(s: Store, ids: seq<string>): (r: seq<Card>)
    ensures forall c | c in r :: exists k | k in ids && k in s.cards :: s.cards[k] == c
    ensures forall k | k in ids && k in s.cards :: s.cards[k] in r
    decreases |ids|
  {
    if |ids| == 0 then []
    else
      var rest := PresentCards(s, ids[1..]);
      if ids[0] in s.cards then [s.cards[ids[0]]] + rest else rest
  }

  /** The ids of the connections of each card in turn, as
      `currentConnections/byCardId` (here `connectionsOf`) gives them. */
  function ConnectionsOfCards(cs: seq<Card>, connectionsOf: string -> seq<string>): (r: seq<string>)
    ensures forall x :: x in r <==> exists i | 0 <= i < |cs| :: x in connectionsOf(cs[i].id)
    decreases |cs|
  {
    if |cs| == 0 then []
    else
      var rest := ConnectionsOfCards(cs[1..], connectionsOf);
      assert forall i | 1 <= i < |cs| :: cs[1..][i - 1] == cs[i];
      connectionsOf(cs[0].id) + rest
  }

  /** One `updateConnection` operation queued per connection, in order. */
  function ConnectionUpdates(ids: seq<string>): (r: seq<Event>)
    ensures |r| == |ids|
    ensures forall i | 0 <= i < |ids| :: r[i] == Queue(Operation("updateConnection", ConnectionBody(ids[i])))
  {
    seq(|ids|, i requires 0 <= i < |ids| => Queue(Operation("updateConnection", ConnectionBody(ids[i]))))
  }

  /** The offset after "prevent cards bunching up at 0": each card sitting at
      0 on an axis clamps the offset on that axis to be non-negative, for all
      the cards. */
  function ClampDelta(cs: seq<Card>, d: Point): (r: Point)
    ensures r.x == (if exists i | 0 <= i < |cs| :: cs[i].x == 0 then Max(0, d.x) else d.x)
    ensures r.y == (if exists i | 0 <= i < |cs| :: cs[i].y == 0 then Max(0, d.y) else d.y)
    decreases |cs|
  {
    if |cs| == 0 then d
    else
      assert forall i | 1 <= i < |cs| :: cs[1..][i - 1] == cs[i];
      ClampDelta(cs[1..], Point(if cs[0].x == 0 then Max(0, d.x) else d.x, if cs[0].y == 0 then Max(0, d.y) else d.y))
  }

  function Max(a: int, b: int): (m: int)
    ensures m >= a && m >= b && (m == a || m == b)
  {
    if a >= b then a else b
  }

  /** The `move` action, one drag frame: each present card's rendered position
      plus the clamped offset, floored at 0. It writes only the screen,
      broadcasts the positions and the redrawn paths of the dragged cards'
      connections (each once, first occurrence kept, as `uniqBy` does), and
      queues one `updateConnection` per such connection; the store is
      committed at the end of the gesture. `rendered` stands for
      `utils.cardPositionFromElement`; without both cursors nothing happens. */
  function Move(s: Store, selected: seq<string>, draggingId: string, rendered: string -> Point,
                connectionsOf: string -> seq<string>, delta: Point, hasCursors: bool): (r: Dragged)
    ensures !hasCursors ==> r == Dragged([], [], [])
    ensures forall i | 0 <= i < |r.moves| :: r.moves[i].x >= 0 && r.moves[i].y >= 0
    ensures hasCursors ==>
      var cs := PresentCards(s, DragIds(selected, draggingId));
      && r.moves == Shift(cs, rendered, ClampDelta(cs, delta))
      && |r.moves| == |cs|
      && (forall i | 0 <= i < |cs| :: r.moves[i].id == cs[i].id && r.moves[i].z == cs[i].z)
      && ((exists i | 0 <= i < |cs| :: cs[i].x == 0) ==>
            forall i | 0 <= i < |cs| :: r.moves[i].x >= rendered(cs[i].id).x)
      && ((exists i | 0 <= i < |cs| :: cs[i].y == 0) ==>
            forall i | 0 <= i < |cs| :: r.moves[i].y >= rendered(cs[i].id).y)
    ensures hasCursors ==>
      var cs := PresentCards(s, DragIds(selected, draggingId));
      && NoDup(r.connectionIds)
      && (forall x :: x in r.connectionIds <==> exists i | 0 <= i < |cs| :: x in connectionsOf(cs[i].id))
    ensures hasCursors ==>
      && |r.events| == 2 + |r.connectionIds|
      && r.events[0] == Broadcast("moveCards", MoveWhileDraggingHandler, MovesBody(r.moves))
      && r.events[1] == Broadcast("updateConnectionPaths", UpdatePathsHandler, ConnectionsBody(r.connectionIds))
      && r.events[2..] == ConnectionUpdates(r.connectionIds)
  {
    if !hasCursors then Dragged([], [], [])
    else
      var cs := PresentCards(s, DragIds(selected, draggingId));
      var moves := Shift(cs, rendered, ClampDelta(cs, delta));
      ShiftNotBack(cs, rendered, delta);
      var connectionIds := Uniq(ConnectionsOfCards(cs, connectionsOf));
      Dragged(moves, connectionIds, DragEvents(moves, connectionIds))
  }

  /** The events of one drag frame: the positions broadcast, the connection
      paths broadcast, then one queued update per connection. */
  function DragEvents(moves: seq<Position>, connectionIds: seq<string>): (r: seq<Event>)
    ensures |r| == 2 + |connectionIds|
    ensures r[0] == Broadcast("moveCards", MoveWhileDraggingHandler, MovesBody(moves))
    ensures r[1] == Broadcast("updateConnectionPaths", UpdatePathsHandler, ConnectionsBody(connectionIds))
    ensures r[2..] == ConnectionUpdates(connectionIds)
  {
    var r := [Broadcast("moveCards", MoveWhileDraggingHandler, MovesBody(moves)),
              Broadcast("updateConnectionPaths", UpdatePathsHandler, ConnectionsBody(connectionIds))]
             + ConnectionUpdates(connectionIds);
    assert r[2..] == ConnectionUpdates(connectionIds);
    r
  }

  /** With the clamped offset, no card moves left of (above) its rendered
      position on an axis where some dragged card sits at 0. */
  lemma ShiftNotBack(cs: seq<Card>, rendered: string -> Point, delta: Point)
    ensures var m := Shift(cs, rendered, ClampDelta(cs, delta));
      && ((exists i | 0 <= i < |cs| :: cs[i].x == 0) ==> forall i | 0 <= i < |cs| :: m[i].x >= rendered(cs[i].id).x)
      && ((exists i | 0 <= i < |cs| :: cs[i].y == 0) ==> forall i | 0 <= i < |cs| :: m[i].y >= rendered(cs[i].id).y)
  {
    var d := ClampDelta(cs, delta);
    assert (exists i | 0 <= i < |cs| :: cs[i].x == 0) ==> d.x >= 0;
    assert (exists i | 0 <= i < |cs| :: cs[i].y == 0) ==> d.y >= 0;
  }

  /** Each card's rendered position moved by `d` and floored at 0. */
  function Shift(cs: seq<Card>, rendered: string -> Point, d: Point): (r: seq<Position>)
    ensures |r| == |cs|
    ensures forall i | 0 <= i < |cs| ::
      r[i] == Position(cs[i].id, Max(0, rendered(cs[i].id).x + d.x), Max(0, rendered(cs[i].id).y + d.y), cs[i].z)
  {
    seq(|cs|, i requires 0 <= i < |cs| =>
      Position(cs[i].id, Max(0, rendered(cs[i].id).x + d.x), Max(0, rendered(cs[i].id).y + d.y), cs[i].z))
  }

  /** The width `resize` gives a card: its resized width (or, when unset or 0,
      its width) plus the offset, never below `minImageWidth`. */
  function ResizedWidth(c: Card, deltaX: int): (w: int)
    ensures w >= MinImageWidth
    ensures w >= (if c.resizeWidth.Some? && c.resizeWidth.value != 0 then c.resizeWidth.value else c.width) + deltaX
    ensures w == MinImageWidth || w == (if c.resizeWidth.Some? && c.resizeWidth.value != 0 then c.resizeWidth.value else c.width) + deltaX
  {
    var width := if c.resizeWidth.Some? && c.resizeWidth.value != 0 then c.resizeWidth.value else c.width;
    Max(MinImageWidth, width + deltaX)
  }

  /** `resize`: for each card, dispatches the `update` action with the new
      `resizeWidth` and broadcasts it again as a `resizeCard`. A missing card
      throws and ends the loop. */
  function Resize(s: Store, cardIds: seq<string>, deltaX: int): (r: Step)
    requires Valid(s)
    ensures Valid(r.store)
    ensures r.store.ids == s.ids && r.store.removedCards == s.removedCards
    ensures r.store.cards.Keys == s.cards.Keys
    ensures |r.events| <= 3 * |cardIds|
    decreases |cardIds|
  {
    if |cardIds| == 0 then Step(s, [])
    else if cardIds[0] !in s.cards then Step(s, [])
    else
      var id := cardIds[0];
      var updates := IdOnly(id).(resizeWidth := Some(Some(ResizedWidth(s.cards[id], deltaX))));
      var rest := Resize(Update(s, updates), cardIds[1..], deltaX);
      Step(rest.store, UpdateEvents(updates) + [Broadcast("resizeCard", UpdateHandler, PatchBody(updates))] + rest.events)
  }

  /** A card whose `resizeWidth` is set and at least `minImageWidth`. */
  predicate WideEnough(c: Card) {
    c.resizeWidth.Some? && c.resizeWidth.value >= MinImageWidth
  }

  /** What `resize` does to one card: only its `resizeWidth` may change, it
      does not change unless listed, and when every listed card exists a
      listed card ends wide enough. */
  lemma {:induction false} ResizeCard(s: Store, cardIds: seq<string>, deltaX: int, k: string)
    requires Valid(s) && k in s.cards
    ensures var c := Resize(s, cardIds, deltaX).store.cards[k];
      && c == s.cards[k].(resizeWidth := c.resizeWidth)
      && (k !in cardIds ==> c == s.cards[k])
      && (k in cardIds && (forall j | j in cardIds :: j in s.cards) ==> WideEnough(c))
    decreases |cardIds|
  {
    if |cardIds| > 0 && cardIds[0] in s.cards {
      var id := cardIds[0];
      var tail := cardIds[1..];
      var width := ResizedWidth(s.cards[id], deltaX);
      var updates := IdOnly(id).(resizeWidth := Some(Some(width)));
      var next := Update(s, updates);
      assert next.cards[id] == s.cards[id].(resizeWidth := Some(width));
      ResizeCard(next, tail, deltaX, k);
      assert Resize(s, cardIds, deltaX).store == Resize(next, tail, deltaX).store;
      assert k in cardIds <==> k == id || k in tail;
      assert (forall j | j in cardIds :: j in s.cards) ==> (forall j | j in tail :: j in next.cards);
    }
  }

  /** `resize` changes nothing but `resizeWidth`, and only on listed cards. */
  lemma ResizeOnlyWidths(s: Store, cardIds: seq<string>, deltaX: int)
    requires Valid(s)
    ensures var r := Resize(s, cardIds, deltaX);
      && (forall k | k in s.cards :: r.store.cards[k] == s.cards[k].(resizeWidth := r.store.cards[k].resizeWidth))
      && (forall k | k in s.cards && k !in cardIds :: r.store.cards[k] == s.cards[k])
  {
    forall k | k in s.cards {
      ResizeCard(s, cardIds, deltaX, k);
    }
  }

  /** After `resize` over cards that all exist, each of them has a
      `resizeWidth`, and none is below `minImageWidth`. */
  lemma ResizeWidthsAtLeastMin(s: Store, cardIds: seq<string>, deltaX: int)
    requires Valid(s)
    requires forall k | k in cardIds :: k in s.cards
    ensures forall k | k in cardIds :: WideEnough(Resize(s, cardIds, deltaX).store.cards[k])
  {
    forall k | k in cardIds {
      ResizeCard(s, cardIds, deltaX, k);
    }
  }

  /** The store after `resize` has updated its first card. */
  function ResizeStep(s: Store, id: string, deltaX: int): Store
    requires Valid(s) && id in s.cards
  {
    Update(s, IdOnly(id).(resizeWidth := Some(Some(ResizedWidth(s.cards[id], deltaX)))))
  }

  /** One step of `resize` over an existing card: only that card's
      `resizeWidth` is set, then the rest are resized. */
  lemma ResizeUnfold(s: Store, cardIds: seq<string>, deltaX: int)
    requires Valid(s) && |cardIds| > 0 && cardIds[0] in s.cards
    ensures var next := ResizeStep(s, cardIds[0], deltaX);
      && Valid(next) && next.cards.Keys == s.cards.Keys
      && Resize(s, cardIds, deltaX).store == Resize(next, cardIds[1..], deltaX).store
      && next.cards[cardIds[0]] == s.cards[cardIds[0]].(resizeWidth := Some(ResizedWidth(s.cards[cardIds[0]], deltaX)))
      && forall k | k in s.cards && k != cardIds[0] :: next.cards[k] == s.cards[k]
  {
  }

  /** When every listed card exists and none is listed twice, `resize` sets
      each listed card's `resizeWidth` to exactly
      `max(64, (resizeWidth || width) + deltaX)`, computed from the card as it
      was before the resize. */
  lemma {:induction false} ResizeSetsWidth(s: Store, cardIds: seq<string>, deltaX: int, k: string)
    requires Valid(s) && NoDup(cardIds)
    requires forall j | j in cardIds :: j in s.cards
    requires k in cardIds
    ensures Resize(s, cardIds, deltaX).store.cards[k].resizeWidth == Some(ResizedWidth(s.cards[k], deltaX))
    decreases |cardIds|
  {
    var id := cardIds[0];
    var tail := cardIds[1..];
    var next := ResizeStep(s, id, deltaX);
    ResizeUnfold(s, cardIds, deltaX);
    NoDupTail(cardIds);
    if k == id {
      ResizeCard(next, tail, deltaX, k);
    } else {
      assert k in tail;
      assert forall j | j in tail :: j in next.cards;
      assert next.cards[k] == s.cards[k];
      ResizeSetsWidth(next, tail, deltaX, k);
    }
  }

  /** Resizing one card sets its `resizeWidth` to exactly
      `max(64, (resizeWidth || width) + deltaX)`. */
  lemma ResizeOne(s: Store, id: string, deltaX: int)
    requires Valid(s) && id in s.cards
    ensures Resize(s, [id], deltaX).store.cards[id].resizeWidth == Some(ResizedWidth(s.cards[id], deltaX))
  {
  }

  // ---------------------------------------------------------------------
  // remove, delete, restore

  /** `remove`, parameterised by the handler peers are told to run for a card
      without content (see `Remove` and `RemoveAsWritten`). A card with a name
      is soft-removed and queued as `removeCard` with `isRemoved` set; an empty
      card is deleted permanently and queued as `deleteCard`. A card that is
      not in the store throws, and nothing happens. */
  function RemoveWith(s: Store, target: Option<Card>, emptyHandler: Handler): (r: Step)
    requires Valid(s)
    ensures Valid(r.store)
    ensures target.None? || target.value.id !in s.cards ==> r == Step(s, [])
    ensures target.Some? && target.value.id in s.cards && s.cards[target.value.id].name != "" ==>
      var id := target.value.id;
      && r.store == CurrentCards.Remove(s, Some(s.cards[id]))
      && r.store.removedCards == [s.cards[id]] + s.removedCards
      && id !in r.store.ids && id !in r.store.cards
      && r.events == [Queue(Operation("removeCard", CardBody(s.cards[id].(isRemoved := true)))),
                      Broadcast("removeCard", RemoveHandler, CardBody(s.cards[id].(isRemoved := true)))]
    ensures target.Some? && target.value.id in s.cards && s.cards[target.value.id].name == "" ==>
      var id := target.value.id;
      && r.store == DeleteCard(s, Some(s.cards[id]))
      && id !in r.store.ids && id !in r.store.cards && !InRemoved(r.store.removedCards, id)
      && r.events == [Queue(Operation("deleteCard", CardBody(s.cards[id]))),
                      Broadcast("removeCard", emptyHandler, CardBody(s.cards[id]))]
  {
    if target.None? || target.value.id !in s.cards then Step(s, [])
    else
      var card := s.cards[target.value.id];
      if card.name != "" then
        var removed := card.(isRemoved := true);
        Step(CurrentCards.Remove(s, Some(removed)),
             [Queue(Operation("removeCard", CardBody(removed))), Broadcast("removeCard", RemoveHandler, CardBody(removed))])
      else
        Step(DeleteCard(s, Some(card)),
             [Queue(Operation("deleteCard", CardBody(card))), Broadcast("removeCard", emptyHandler, CardBody(card))])
  }

  /** The `remove` action as the JavaScript writes it: the broadcast for a deleted
      empty card names `currentCards/remove`, which soft-removes. */
  function RemoveAsWritten(s: Store, target: Option<Card>): (r: Step)
    requires Valid(s)
    ensures Valid(r.store)
    ensures target.Some? && target.value.id in s.cards && s.cards[target.value.id].name == "" ==>
      |r.events| == 2 && r.events[1] == Broadcast("removeCard", RemoveHandler, CardBody(s.cards[target.value.id]))
  {
    RemoveWith(s, target, RemoveHandler)
  }

  /** The `remove` action with the broadcast for a deleted empty card naming
      `currentCards/deleteCard`, so that peers delete it too. */
  function Remove(s: Store, target: Option<Card>): (r: Step)
    requires Valid(s)
    ensures Valid(r.store)
    ensures target.None? || target.value.id !in s.cards ==> r == Step(s, [])
    ensures target.Some? && target.value.id in s.cards && s.cards[target.value.id].name != "" ==>
      var id := target.value.id;
      && r.store == CurrentCards.Remove(s, Some(s.cards[id]))
      && r.store.removedCards == [s.cards[id]] + s.removedCards
      && id !in r.store.ids && id !in r.store.cards
      && r.events == [Queue(Operation("removeCard", CardBody(s.cards[id].(isRemoved := true)))),
                      Broadcast("removeCard", RemoveHandler, CardBody(s.cards[id].(isRemoved := true)))]
    ensures target.Some? && target.value.id in s.cards && s.cards[target.value.id].name == "" ==>
      var id := target.value.id;
      && r.store == DeleteCard(s, Some(s.cards[id]))
      && id !in r.store.ids && id !in r.store.cards && !InRemoved(r.store.removedCards, id)
      && r.events == [Queue(Operation("deleteCard", CardBody(s.cards[id]))),
                      Broadcast("removeCard", DeleteCardHandler, CardBody(s.cards[id]))]
  {
    RemoveWith(s, target, DeleteCardHandler)
  }

  /** `deleteCard`: deletes the card permanently and queues `deleteCard`. */
  function DeleteCardAction(s: Store, card: Card): (r: Step)
    requires Valid(s)
    ensures Valid(r.store)
    ensures card.id !in r.store.cards && card.id !in r.store.ids && !InRemoved(r.store.removedCards, card.id)
    ensures r.events == [Queue(Operation("deleteCard", CardBody(card)))]
  {
    Step(DeleteCard(s, Some(card)), [Queue(Operation("deleteCard", CardBody(card)))])
  }

  /** `restoreRemoved`: restores the card, then queues and broadcasts it. */
  function RestoreRemovedAction(s: Store, card: Card): (r: Step)
    ensures card.id in r.store.cards && !InRemoved(r.store.removedCards, card.id)
    ensures Valid(s) && card.id != "" && card.id !in s.cards ==> Valid(r.store)
    ensures r.events == [Queue(Operation("restoreRemovedCard", CardBody(card))),
                         Broadcast("restoreRemovedCard", RestoreRemovedHandler, CardBody(card))]
  {
    Step(RestoreRemoved(s, card),
         [Queue(Operation("restoreRemovedCard", CardBody(card))), Broadcast("restoreRemovedCard", RestoreRemovedHandler, CardBody(card))])
  }
}
