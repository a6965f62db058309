/** The normalized card store of `currentCards`: its state, its mutations
    (each a pure state transition) and its getters.

    A mutation that reads a property of a missing card throws a `TypeError`
    in the JavaScript before it writes anything; the model leaves the state as
    it was in that case, and, where the mutation loops over a list, stops at
    that element exactly as the thrown error does. */
module CurrentCards {
  import opened Common
  import opened Seqs
  import opened Entities

  /** `ids` in creation order, `cards` keyed by id, and `removedCards`, a stack
      whose head is the most recently removed card. */
  datatype Store = Store(ids: seq<string>, cards: map<string, Card>, removedCards: seq<Card>)

  /** The state after the `clear` mutation. */
  const Empty: Store := Store([], map[], [])

  /** The store invariant: `ids` lists every key of `cards` exactly once, each
      card is stored under its own (non-empty) id, and no removed card is
      active. */
  predicate Valid(s: Store) {
    && NoDup(s.ids)
    && (forall id | id in s.ids :: id in s.cards)
    && (forall id | id in s.cards :: id in s.ids)
    && (forall id | id in s.cards :: s.cards[id].id == id)
    && "" !in s.cards
    && (forall i | 0 <= i < |s.removedCards| :: s.removedCards[i].id !in s.cards)
  }

  /** Some entry of a removed-card stack carries `id`. */
  predicate InRemoved(removed: seq<Card>, id: string) {
    exists i | 0 <= i < |removed| :: removed[i].id == id
  }

  // ---------------------------------------------------------------------
  // Partial updates

  /** A partial card as passed to `update`: `id` names the card and every
      other key is present (`Some`) or absent (`None`). `resizeWidth` may be
      set to a number or to `null` (`Some(None)`). Positions arrive unrounded. */
  datatype CardPatch = CardPatch(
    id: string,
    x: Option<real>,
    y: Option<real>,
    z: Option<int>,
    width: Option<int>,
    height: Option<int>,
    name: Option<string>,
    frameId: Option<int>,
    userId: Option<string>,
    nameUpdatedByUserId: Option<string>,
    backgroundColor: Option<string>,
    isLocked: Option<bool>,
    isRemoved: Option<bool>,
    resizeWidth: Option<Option<int>>)

  /** `{ id }` with no other key. */
  function IdOnly(id: string): CardPatch {
    CardPatch(id, None, None, None, None, None, None, None, None, None, None, None, None, None)
  }

  /** The patch carries some key besides `id`. */
  predicate HasFields(p: CardPatch) {
    || p.x.Some? || p.y.Some? || p.z.Some? || p.width.Some? || p.height.Some?
    || p.name.Some? || p.frameId.Some? || p.userId.Some? || p.nameUpdatedByUserId.Some?
    || p.backgroundColor.Some? || p.isLocked.Some? || p.isRemoved.Some? || p.resizeWidth.Some?
  }

  /** `utils.objectHasKeys`: the patch has any key at all. */
  predicate HasKeys(p: CardPatch) {
    p.id != "" || HasFields(p)
  }

  /** JavaScript's `Math.round`: halves round up. */
  function Round(v: real): int {
    (v + 0.5).Floor
  }

  /** `Math.round` returns the integer within half a unit of its argument
      (ties going up), and leaves integers alone. */
  lemma RoundIsNearest(v: real, n: int)
    ensures Round(v) == n <==> n as real - 0.5 <= v < n as real + 0.5
    ensures Round(n as real) == n
  {
  }

  /** Overwrites exactly the keys present in `p`; the `id` key rewrites the id
      with itself, so the card keeps its id. Positions are rounded. */
  function ApplyPatch(c: Card, p: CardPatch): Card {
    c.(
      x := if p.x.Some? then Round(p.x.value) else c.x,
      y := if p.y.Some? then Round(p.y.value) else c.y,
      z := p.z.GetOr(c.z),
      width := p.width.GetOr(c.width),
      height := p.height.GetOr(c.height),
      name := p.name.GetOr(c.name),
      frameId := p.frameId.GetOr(c.frameId),
      userId := p.userId.GetOr(c.userId),
      nameUpdatedByUserId := p.nameUpdatedByUserId.GetOr(c.nameUpdatedByUserId),
      backgroundColor := p.backgroundColor.GetOr(c.backgroundColor),
      isLocked := p.isLocked.GetOr(c.isLocked),
      isRemoved := p.isRemoved.GetOr(c.isRemoved),
      resizeWidth := p.resizeWidth.GetOr(c.resizeWidth))
  }

  /** A patch with no key besides `id` changes nothing. */
  lemma ApplyEmptyPatch(c: Card, p: CardPatch)
    requires !HasFields(p)
    ensures ApplyPatch(c, p) == c
  {
  }

  /** Applying the same patch twice is the same as applying it once, so a
      replayed or doubly broadcast update is harmless. */
  lemma ApplyPatchIdempotent(c: Card, p: CardPatch)
    ensures ApplyPatch(ApplyPatch(c, p), p) == ApplyPatch(c, p)
  {
  }

  // ---------------------------------------------------------------------
  // Mutations

  /** `create`: refuses a card without an id; otherwise appends the id to
      `ids` and stores the card under it. */
  function Create(s: Store, card: Card): (r: Store)
    ensures card.id == "" ==> r == s
    ensures card.id != "" ==> r.ids == s.ids + [card.id] && r.removedCards == s.removedCards
    ensures card.id != "" ==> card.id in r.cards && r.cards[card.id] == card
    ensures forall k | k in s.cards && k != card.id :: k in r.cards && r.cards[k] == s.cards[k]
    ensures Valid(s) && card.id !in s.cards && !InRemoved(s.removedCards, card.id) ==> Valid(r)
  {
    if card.id == "" then s
    else Store(s.ids + [card.id], s.cards[card.id := card], s.removedCards)
  }

  /** `update`: a no-op for a patch without keys or without an id (and, in the
      JavaScript, a `TypeError` for an id that names no card, which also leaves
      the state as it was); otherwise merges the patch into that one card. */
  function Update(s: Store, p: CardPatch): (r: Store)
    ensures !HasKeys(p) || p.id == "" || p.id !in s.cards ==> r == s
    ensures r.ids == s.ids && r.removedCards == s.removedCards && r.cards.Keys == s.cards.Keys
    ensures forall k | k in s.cards && k != p.id :: r.cards[k] == s.cards[k]
    ensures p.id in s.cards && p.id != "" ==> r.cards[p.id] == ApplyPatch(s.cards[p.id], p)
    ensures Valid(s) ==> Valid(r)
  {
    if !HasKeys(p) then s
    else if p.id == "" then s
    else if p.id !in s.cards then s
    else s.(cards := s.cards[p.id := ApplyPatch(s.cards[p.id], p)])
  }

  /** An updated position is stored as the integer nearest to the one given. */
  lemma UpdateRoundsPosition(s: Store, p: CardPatch)
    requires p.id != "" && p.id in s.cards
    ensures p.x.Some? ==> p.x.value - 0.5 < Update(s, p).cards[p.id].x as real <= p.x.value + 0.5
    ensures p.y.Some? ==> p.y.value - 0.5 < Update(s, p).cards[p.id].y as real <= p.y.value + 0.5
    ensures p.x.None? ==> Update(s, p).cards[p.id].x == s.cards[p.id].x
    ensures p.y.None? ==> Update(s, p).cards[p.id].y == s.cards[p.id].y
  {
  }

  /** `remove`: takes the active card off `ids` and `cards` and pushes it on
      top of `removedCards`. */
  function Remove(s: Store, target: Option<Card>): (r: Store)
    ensures target.None? || target.value.id !in s.cards ==> r == s
    ensures Valid(s) && target.Some? && target.value.id in s.cards ==>
      var id := target.value.id;
      && id !in r.ids && id !in r.cards
      && r.removedCards == [s.cards[id]] + s.removedCards
      && (forall k | k in s.cards && k != id :: k in r.cards && r.cards[k] == s.cards[k])
      && (forall k | k in s.ids && k != id :: k in r.ids)
    ensures Valid(s) ==> Valid(r)
  {
    if target.None? || target.value.id !in s.cards then s
    else
      var card := s.cards[target.value.id];
      var r := Store(Filter(s.ids, k => k != card.id), s.cards - {card.id}, [card] + s.removedCards);
      assert NoDup(s.ids) ==> NoDup(r.ids) by {
        if NoDup(s.ids) {
          FilterNoDup(s.ids, k => k != card.id);
        }
      }
      r
  }

  /** `deleteCard`: permanent deletion, from the active cards when the card is
      there and from `removedCards` when it is there. (Filtering a stack with
      no matching entry changes nothing, so the JavaScript branch on
      `shouldDelete` only chooses which cache key to write.) */
  function DeleteCard(s: Store, target: Option<Card>): (r: Store)
    ensures target.None? ==> r == s
    ensures target.Some? ==> !InRemoved(r.removedCards, target.value.id)
    ensures Valid(s) && target.Some? ==>
      var id := target.value.id;
      && id !in r.ids && id !in r.cards
      && (forall k | k in s.cards && k != id :: k in r.cards && r.cards[k] == s.cards[k])
      && (forall c | c in s.removedCards && c.id != id :: c in r.removedCards)
      && (forall c | c in r.removedCards :: c in s.removedCards)
    ensures Valid(s) ==> Valid(r)
  {
    if target.None? then s
    else
      var id := target.value.id;
      var active :=
        if id in s.cards then
          var card := s.cards[id];
          assert NoDup(s.ids) ==> NoDup(Filter(s.ids, k => k != card.id)) by {
            if NoDup(s.ids) {
              FilterNoDup(s.ids, k => k != card.id);
            }
          }
          Store(Filter(s.ids, k => k != card.id), s.cards - {card.id}, s.removedCards)
        else s;
      active.(removedCards := Filter(active.removedCards, (c: Card) => c.id != id))
  }

  /** `restoreRemoved`: puts the card back at the end of `ids`, stores it, and
      drops every entry with its id from `removedCards`. */
  function RestoreRemoved(s: Store, card: Card): (r: Store)
    ensures r.ids == s.ids + [card.id]
    ensures card.id in r.cards && r.cards[card.id] == card
    ensures forall k | k in s.cards && k != card.id :: k in r.cards && r.cards[k] == s.cards[k]
    ensures !InRemoved(r.removedCards, card.id)
    ensures forall c | c in s.removedCards && c.id != card.id :: c in r.removedCards
    ensures forall c | c in r.removedCards :: c in s.removedCards
    ensures Valid(s) && card.id != "" && card.id !in s.cards ==> Valid(r)
  {
    Store(s.ids + [card.id], s.cards[card.id := card], Filter(s.removedCards, (c: Card) => c.id != card.id))
  }

  /** Writes one position into the (present) card it names. */
  function SetPosition(s: Store, p: Position): (r: Store)
    requires p.id in s.cards
    ensures r.ids == s.ids && r.removedCards == s.removedCards && r.cards.Keys == s.cards.Keys
    ensures Valid(s) ==> Valid(r)
  {
    s.(cards := s.cards[p.id := s.cards[p.id].(x := p.x, y := p.y)])
  }

  /** The card a position entry names. */
  function PositionId(p: Position): string {
    p.id
  }

  /** The entry for `id` that comes last in `ps`, if any: the position a card
      ends up with when a move list names it more than once. */
  function LastPosition(ps: seq<Position>, id: string): Option<Position> {
    LastWith(ps, PositionId, id)
  }

  /** A card moved to a position, or left alone when there is none. */
  function MovedTo(c: Card, p: Option<Position>): Card {
    match p
    case Some(q) => c.(x := q.x, y := q.y)
    case None => c
  }

  /** `moveBroadcast`: a peer's move list; entries for cards this client does
      not have are skipped. Each card takes the last position listed for it. */
  function MoveBroadcast(s: Store, ps: seq<Position>): (r: Store)
    ensures r.ids == s.ids && r.removedCards == s.removedCards && r.cards.Keys == s.cards.Keys
    ensures forall k | k in s.cards :: r.cards[k] == MovedTo(s.cards[k], LastPosition(ps, k))
    ensures Valid(s) ==> Valid(r)
    decreases |ps|
  {
    if |ps| == 0 then s
    else if ps[0].id !in s.cards then MoveBroadcast(s, ps[1..])
    else MoveBroadcast(SetPosition(s, ps[0]), ps[1..])
  }

  /** `move`: the local move list; an entry naming a missing card throws, so the
      entries after it are not applied. */
  function MoveCards(s: Store, ps: seq<Position>): (r: Store)
    ensures r.ids == s.ids && r.removedCards == s.removedCards && r.cards.Keys == s.cards.Keys
    ensures (forall i | 0 <= i < |ps| :: ps[i].id in s.cards) ==> r == MoveBroadcast(s, ps)
    ensures Valid(s) ==> Valid(r)
    decreases |ps|
  {
    if |ps| == 0 then s
    else if ps[0].id !in s.cards then s
    else
      var next := SetPosition(s, ps[0]);
      assert forall i | 1 <= i < |ps| :: ps[1..][i - 1] == ps[i];
      MoveCards(next, ps[1..])
  }

  // ---------------------------------------------------------------------
  // Getters

  /** `byId`: the card stored under `id`, if any. */
  function ById(s: Store, id: string): (r: Option<Card>)
    ensures r.Some? <==> id in s.cards
    ensures r.Some? ==> r.value == s.cards[id]
    ensures Valid(s) && r.Some? ==> r.value.id == id && id in s.ids
  {
    if id in s.cards then Some(s.cards[id]) else None
  }

  /** `all`: the active cards in creation order. */
  function All(s: Store): (r: seq<Card>)
    requires Valid(s)
    ensures |r| == |s.ids|
    ensures forall i | 0 <= i < |r| :: r[i].id == s.ids[i] && r[i] == s.cards[s.ids[i]]
    ensures forall k | k in s.cards :: s.cards[k] in r
    ensures forall c | c in r :: c.id in s.cards && s.cards[c.id] == c
  {
    var r := seq(|s.ids|, i requires 0 <= i < |s.ids| => s.cards[s.ids[i]]);
    assert forall k | k in s.cards :: s.cards[k] in r by {
      forall k | k in s.cards ensures s.cards[k] in r {
        var i :| 0 <= i < |s.ids| && s.ids[i] == k;
        assert r[i] == s.cards[k];
      }
    }
    r
  }

  /** Every `userId` and `nameUpdatedByUserId` of the cards, in order, falsy
      ones included. */
  function CardUserIds(cs: seq<Card>): (r: seq<string>)
    ensures forall u | u in r :: exists i | 0 <= i < |cs| :: u == cs[i].userId || u == cs[i].nameUpdatedByUserId
    ensures forall i | 0 <= i < |cs| :: cs[i].userId in r && cs[i].nameUpdatedByUserId in r
  {
    if |cs| == 0 then []
    else
      var rest := CardUserIds(cs[1..]);
      assert forall i | 1 <= i < |cs| :: cs[i] == cs[1..][i - 1];
      [cs[0].userId, cs[0].nameUpdatedByUserId] + rest
  }

  /** A user who created or renamed some active card. */
  predicate IsCardUser(s: Store, u: string) {
    exists k | k in s.cards :: u == s.cards[k].userId || u == s.cards[k].nameUpdatedByUserId
  }

  /** `userIds`: the users who created or renamed an active card, each once,
      falsy ids dropped. */
  function UserIds(s: Store): (r: seq<string>)
    requires Valid(s)
    ensures NoDup(r)
    ensures "" !in r
    ensures forall u :: u in r <==> u != "" && IsCardUser(s, u)
  {
    var all := All(s);
    var users := CardUserIds(all);
    var r := Uniq(Filter(users, u => u != ""));
    assert forall u :: u in r <==> u != "" && IsCardUser(s, u) by {
      forall u ensures u in r <==> u != "" && IsCardUser(s, u) {
        if u in r {
          var i :| 0 <= i < |all| && (u == all[i].userId || u == all[i].nameUpdatedByUserId);
          assert s.ids[i] in s.cards;
        }
        if u != "" && IsCardUser(s, u) {
          var k :| k in s.cards && (u == s.cards[k].userId || u == s.cards[k].nameUpdatedByUserId);
          var i :| 0 <= i < |s.ids| && s.ids[i] == k;
          assert all[i] == s.cards[k];
          assert u in users;
        }
      }
    }
    r
  }
}
