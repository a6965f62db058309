# Kinopio card and space stores, in Dafny

Kinopio is a canvas of cards joined by connections. This project models three
Vuex store modules of its web client as pure state transitions over immutable
datatypes. Each action returns the new state together with the log of what it
dispatched. That log holds the operations queued for the remote API
(`api/addToQueue`, `apiQueue.add`) and the broadcasts sent to peers
(`broadcast/update`).

- `currentCards` is the normalized card store. It holds `ids` in creation
  order, `cards` keyed by id, and `removedCards` as a stack whose head is the
  newest entry. Modules: `CurrentCards` (state, mutations, getters) and
  `CardActions` (actions, including z order, drag clamping, resize, the
  diff-only merge and removal).
- `CardRelay` is the peer side of the broadcasts. A peer runs the named
  mutation on each received body and ignores queued operations.
  `PeerConvergence` proves, action by action, that a peer replaying the
  emitted events ends with the sender's store.
- `currentSpace` is the array-based space store. Modules: `CurrentSpace`
  (space, card, connection and user mutations, connection getters) and
  `SpaceActions` (actions, `loadSpace`, `toAnotherSpace`,
  `removeUnusedConnectionTypes`).
- `userNotifications` covers who is notified. Module: `UserNotifications`
  (the recipient getters, the once-per-card guard of `addCardUpdated`, and
  `addSpaceToGroup`).
- `Common`, `Seqs` and `Entities` hold shared helpers. They provide
  `Option`, the queued `Operation` record, duplicate-freedom, `filter`,
  lodash's `uniq`, and the card record.

Conventions:

- Ids are strings, and `""` stands for every falsy id.
- Card coordinates are integers. A partial update carries its position as a
  real, which `update` rounds the way `Math.round` does.
- A JavaScript `TypeError` comes from reading a property of a missing card.
  The model leaves the state unchanged at that point and, inside a
  `forEach`, skips the rest of the loop.
- Inputs that come from other stores are parameters:
  - the space's members and the group users who added cards;
  - the group lookup, the edit permission and the "over the card limit" flag;
  - ids from `nanoid`;
  - the empty card's size;
  - the rendered card positions;
  - the cached and the remote space.

## Model

| member | source | states |
|---|---|---|
| CurrentCards.Create | src/store/currentCards.js:56-64 | a card without an id changes nothing; otherwise its id is appended to `ids` and it is stored under that id, no other card changes, and the store invariant survives when the id was unused |
| CurrentCards.Update | src/store/currentCards.js:68-85 | no keys, no id or an unknown id leaves the store as it was; otherwise only the named card changes, every other card is untouched, `ids` and the removed stack are kept, and the invariant is preserved |
| CurrentCards.UpdateRoundsPosition | src/store/currentCards.js:74-79 | an updated x or y is stored as the integer within half a unit of the value given; an absent one is kept |
| CurrentCards.Remove | src/store/currentCards.js:93-101 | the card leaves `ids` and `cards` and becomes the head of `removedCards`; other cards and ids stay; `ids` and the removed stack stay disjoint |
| CurrentCards.DeleteCard | src/store/currentCards.js:105-119 | afterwards the id is in neither `ids`, `cards` nor `removedCards`; every other active card and every other removed entry is kept, and nothing is added |
| CurrentCards.RestoreRemoved | src/store/currentCards.js:120-129 | the card is appended to `ids` and stored, every removed entry with its id is dropped and all other entries are kept; the invariant holds when the id was inactive |
| CurrentCards.MoveCards | src/store/currentCards.js:86-92 | keeps ids, keys and the removed stack; when every entry names a present card it equals the peer-side `moveBroadcast` |
| CurrentCards.MoveBroadcast | src/store/currentCards.js:140-148 | each present card takes the last position listed for it and keeps every other field; unknown ids are skipped |
| CurrentCards.ById | src/store/currentCards.js:659-661 | finds a card exactly when its id is a key, and then it is the card stored under that key, which carries the id and is listed in `ids` |
| CurrentCards.All | src/store/currentCards.js:662-664 | the active cards in `ids` order: the i-th is the card stored under the i-th id, and every stored card appears |
| CurrentCards.UserIds | src/store/currentCards.js:678-688 | no duplicates and no falsy id; a user is listed exactly when it created or renamed some active card |
| CardActions.ClearZsEffect | src/store/currentCards.js:556-564 | clearing sets the z of each listed card to 0 and changes no other card and no other field |
| CardActions.ClearAllZs | src/store/currentCards.js:556-564 | every active card's z becomes 0 and nothing else changes |
| CardActions.IncrementZ | src/store/currentCards.js:565-582 | a missing or locked card changes nothing and emits nothing; otherwise ids, keys and the removed stack are kept and the invariant holds |
| CardActions.IncrementZResets | src/store/currentCards.js:569-575 | when the highest z exceeds `MAX_SAFE_INTEGER - 1000`, every other card's z becomes 0 and the target's becomes 2 |
| CardActions.IncrementZPlain | src/store/currentCards.js:576-581 | otherwise the target's z becomes the highest z plus one, no other card changes, and a user who cannot edit emits nothing |
| CardActions.IncrementZBringsToFront | src/store/currentCards.js:565-582 | after raising an unlocked card its z is strictly above every other active card's, and nothing else about it changed |
| CardActions.Add | src/store/currentCards.js:189-224 | over the card limit nothing happens; otherwise the new card is queued and broadcast as `createCard`, appended to `ids`, and placed strictly above every existing card |
| CardActions.AddMultiple | src/store/currentCards.js:225-247 | two events per card, existing ids kept as a prefix, one new id per card when each has an id, removed stack untouched |
| CardActions.AddMultipleAppendsIds | src/store/currentCards.js:226-242 | with ids from `nanoid`, `ids` grows by exactly one id per incoming card, in order: the card's own id when it has one, the fresh id otherwise |
| CardActions.AddMultipleStoresBuilt | src/store/currentCards.js:226-242 | every chosen id ends holding the last card built for it from the incoming one: its x, y, name, frame and colour, its own z, or when that is 0 the id count at its creation plus one, the empty card's width and height when unset, and the current user |
| CardActions.AddMultipleKeepsOthers | src/store/currentCards.js:226-242 | every stored card whose id is not chosen is kept unchanged |
| CardActions.AddMultipleStoresDistinct | src/store/currentCards.js:227-241 | with distinct chosen ids, the i-th incoming card is stored under its id with z `card.z`, or the id count before the batch plus i + 1 when `card.z` is 0 |
| CardActions.AddMultipleKeepsValid | src/store/currentCards.js:226-242 | with distinct chosen ids that are new and not on the removed stack, the store invariant survives |
| CardActions.AddMultipleMayLandBehind | src/store/currentCards.js:231 | an incoming card with z 0 gets the id count plus one, so it lands behind any card whose z is higher |
| CardActions.DiffRoundTrip | src/store/currentCards.js:168-176 | applying the difference to the stored card gives the incoming card, and the difference is empty exactly when the two are equal |
| CardActions.MergeOne | src/store/currentCards.js:165-178 | the stored card ends equal to the incoming one, nothing else changes, and an update is committed exactly when they differed |
| CardActions.MergeUnique | src/store/currentCards.js:164-180 | keeps ids, keys and the invariant; every committed update names a stored card and carries some key besides the id |
| CardActions.MergeUniqueStoresIncoming | src/store/currentCards.js:164-180 | when all incoming cards exist, each card ends equal to the last incoming card with its id and every other card is as it was |
| CardActions.ClampDelta | src/store/currentCards.js:435-440 | an axis offset is clamped to be non-negative exactly when some dragged card sits at 0 on that axis |
| CardActions.Move | src/store/currentCards.js:413-480 | without both cursors nothing happens; otherwise each present dragged card moves from its rendered position by the clamped offset, never to a negative coordinate and never left of (above) it on an axis where some card sits at 0; the positions are broadcast to `moveWhileDraggingBroadcast`, the connections of the dragged cards, without repeats, are broadcast as `updateConnectionPaths` and each is queued as `updateConnection` |
| CardActions.ResizedWidth | src/store/currentCards.js:384-387 | the new width is the larger of 64 and the resized width (or the width when that is unset or 0) plus the offset: at least both, and equal to one of them |
| CardActions.Resize | src/store/currentCards.js:381-393 | keeps ids, keys and the invariant, and emits at most three events per listed card |
| CardActions.ResizeCard | src/store/currentCards.js:381-393 | for one card: only `resizeWidth` may change, an unlisted card does not change, and a listed card ends with a width of at least 64 when all listed cards exist |
| CardActions.ResizeOnlyWidths | src/store/currentCards.js:383-389 | resize changes nothing but `resizeWidth`, and only on listed cards |
| CardActions.ResizeWidthsAtLeastMin | src/store/currentCards.js:385-388 | after resizing cards that all exist, each has a `resizeWidth` of at least 64 |
| CardActions.ResizeSetsWidth | src/store/currentCards.js:383-389 | when the listed cards all exist and none is listed twice, each listed card's `resizeWidth` becomes exactly `max(64, (resizeWidth or width) + deltaX)` of the card as it was before |
| CardActions.ResizeOne | src/store/currentCards.js:384-387 | resizing a single card sets its `resizeWidth` to exactly that width |
| CardActions.RemoveAsWritten | src/store/currentCards.js:586-599 | as written, an empty card's deletion is broadcast to the soft-removing `currentCards/remove` handler |
| CardActions.Remove | src/store/currentCards.js:586-617 | no card, or one not in the store, changes nothing and emits nothing; a named card is soft-removed by the `remove` mutation, onto the head of the stack, and queued and broadcast as `removeCard` with `isRemoved` set; an empty one is deleted for good by `deleteCard`, queued as `deleteCard` and broadcast to the `deleteCard` handler; either way it leaves `ids` and `cards` and every other card stays |
| CardActions.DeleteCardAction | src/store/currentCards.js:614-617 | the card is gone from the active cards and the removed stack, and `deleteCard` is queued |
| CardActions.RestoreRemovedAction | src/store/currentCards.js:625-630 | the card is active again and no removed entry carries its id; it is queued and broadcast as `restoreRemovedCard` |
| CardRelay.ReplayUpdateEvents | src/store/currentCards.js:289-293 | a peer receiving the queued and broadcast halves of an `update` runs the same mutation as the sender |
| PeerConvergence.AddReplaysAtPeer | src/store/currentCards.js:214-216 | a peer replaying the events of `add` ends with the sender's store |
| PeerConvergence.IncrementZReplaysAtPeer | src/store/currentCards.js:569-581 | a peer replaying the events of `incrementZ` by an editor ends with the sender's store, including after a z reset |
| PeerConvergence.ResizeReplaysAtPeer | src/store/currentCards.js:388-390 | a peer replaying `resize` ends with the sender's store, although each update arrives twice |
| PeerConvergence.RemoveReplaysAtPeer | src/store/currentCards.js:594-599 | with the corrected handler, a peer replaying `remove` ends with the sender's store |
| PeerConvergence.RemoveAsWrittenDivergesAtPeer | src/store/currentCards.js:596-599 | with the handler as written, a peer keeps the deleted empty card on its removed stack while the sender has none: the stores differ |
| PeerConvergence.RestoreRemovedReplaysAtPeer | src/store/currentCards.js:625-628 | a peer replaying `restoreRemoved` ends with the sender's store |
| PeerConvergence.MoveReplaysAtPeer | src/store/currentCards.js:133-139 | no event of a drag frame changes a peer's card store: the card broadcast only moves elements on screen, and the path broadcast and queued updates concern connections |
| CurrentSpace.AddUserToSpace | src/store/currentSpace.js:36-45 | afterwards a user with the id is present; an existing id leaves the users as they were, a new one is appended; nothing else changes |
| CurrentSpace.AddUserKeepsIdsUnique | src/store/currentSpace.js:36-45 | user ids stay unique, and adding the same user twice is adding it once |
| CurrentSpace.UpdateSpace | src/store/currentSpace.js:49-57 | each key of the update is written only when the space's current value is truthy: id, name and privacy when not empty, `updatedAt` when not 0, and the lists (cards, removed cards, connections, types, users) always; absent keys keep their field |
| CurrentSpace.UpdateSpaceIdempotent | src/store/currentSpace.js:49-57 | applying an update twice is applying it once, a falsy name is never filled in, a truthy one takes the update's name, and an empty card list in the update empties the cards |
| CurrentSpace.IncrementCardZ | src/store/currentSpace.js:61-69 | the card list keeps its length and every card keeps every field but z |
| CurrentSpace.IncrementCardZRanks | src/store/currentSpace.js:61-67 | the target is strictly above every other card, the others' z equal their positions, the target's is `cards.length + 1`, and no z exceeds that |
| CurrentSpace.MoveCard | src/store/currentSpace.js:86-97 | only cards with the id move; their x and y become old plus delta, floored at 0, and nothing else changes |
| CurrentSpace.MoveCardUndo | src/store/currentSpace.js:86-95 | a move that the floor did not cut short is undone by the opposite move |
| CurrentSpace.RemoveCard | src/store/currentSpace.js:102-112 | the cards with the id leave `cards`, all others stay, and the first of them becomes the head of `removedCards` |
| CurrentSpace.RemoveCardPermanent | src/store/currentSpace.js:113-117 | exactly the entries with the id leave both `cards` and `removedCards` |
| CurrentSpace.RestoreCard | src/store/currentSpace.js:118-125 | the first removed card with the id moves to the end of `cards` and exactly that entry leaves the stack; an unknown id changes nothing |
| CurrentSpace.RemovedAfterRestoreAsWritten | src/store/currentSpace.js:118-125 | as written, with the id present exactly its entry is deleted from the stack |
| CurrentSpace.RestoreAsWrittenDropsOldest | src/store/currentSpace.js:119-122 | as written, restoring an id no removed card carries deletes the oldest removed card, while the corrected mutation keeps the stack |
| CurrentSpace.RemoveThenRestore | src/store/currentSpace.js:102-125 | removing a card and restoring it gives back the removed stack exactly and puts the card at the end of `cards` |
| CurrentSpace.ConnectionAlreadyExists | src/store/currentSpace.js:517-524 | true exactly when some connection has the given start and end |
| CurrentSpace.CardConnections | src/store/currentSpace.js:525-531 | exactly the connections that start or end at the card |
| CurrentSpace.RemoveConnection | src/store/currentSpace.js:137-143 | exactly the connections with the id are dropped |
| CurrentSpace.RemoveConnectionType | src/store/currentSpace.js:159-164 | exactly the types with the id are dropped |
| SpaceActions.UpdateSpaceAction | src/store/currentSpace.js:264-268 | the space keeps its id whatever the update says |
| SpaceActions.Restored | src/store/currentSpace.js:245-251 | without a cache the space gets the argument's id and empty cards and connections, and keeps every other field; with one, it is the cached space |
| SpaceActions.LoadSpace | src/store/currentSpace.js:244-263 | the remote space replaces the state exactly when it exists and its `updatedAt` is later than the argument's `cacheDate`; otherwise the restored space stays |
| SpaceActions.LoadSpaceUsesArgumentDate | src/store/currentSpace.js:257-262 | a remote newer than the argument's date wins over a cached copy stamped later still, and without a date the cached copy always stays |
| SpaceActions.LoadSpaceKeepsOverlaidFields | src/store/currentSpace.js:246-251 | with no cache and no newer remote, name, removed cards, connection types and users of the previous space survive |
| SpaceActions.IncrementCardZAction | src/store/currentSpace.js:335-346 | one `updateCard` with z `cards.length + 1` per card carrying the id, and none when no card does |
| SpaceActions.IncrementCardZQueuesStoredZ | src/store/currentSpace.js:335-346 | the queued z is the z the target holds after the renumbering |
| SpaceActions.RemoveCardPermanentAction | src/store/currentSpace.js:358-361 | exactly the entries with the id leave both lists, and `removeCardPermanent` is queued |
| SpaceActions.RestoreCardAction | src/store/currentSpace.js:362-365 | for a known id the first removed card with it is appended to `cards` and exactly that entry leaves the stack, nothing else changes; an unknown id changes nothing, which is the corrected mutation of the first finding (as written, the oldest removed card is lost); `restoreCard` is queued |
| SpaceActions.RemoveEach | src/store/currentSpace.js:468-471 | one `removeConnection` per listed connection, in order, and exactly the connections whose id is listed are dropped |
| SpaceActions.RemoveConnectionsFromCard | src/store/currentSpace.js:448-454 | no remaining connection touches the card, nothing is added, and one removal is queued per touching connection |
| SpaceActions.RemoveConnectionsFromCardKeepsOthers | src/store/currentSpace.js:448-454 | with unique connection ids, every connection not touching the card is kept |
| SpaceActions.AddConnectionAction | src/store/currentSpace.js:421-433 | an existing start/end pair changes nothing; otherwise the connection gets a fresh id and the type's id, is queued and appended; afterwards the pair exists |
| SpaceActions.AddConnectionKeepsPairsUnique | src/store/currentSpace.js:421-433 | no two connections ever join the same start card to the same end card |
| SpaceActions.RemoveCardAction | src/store/currentSpace.js:347-357 | a named card is soft-removed and queued as `removeCard`, an unnamed one is removed from both lists; either way no connection touching it remains |
| SpaceActions.RemoveCardKeepsConnectionsAttached | src/store/currentSpace.js:347-357 | if every connection was attached to cards of the space, it still is after a card is removed |
| SpaceActions.RemoveCardKeepsOtherConnections | src/store/currentSpace.js:347-355 | with unique connection ids, connections not touching the removed card are kept |
| SpaceActions.RemoveTypes | src/store/currentSpace.js:503-506 | one `removeConnectionType` per listed type, and exactly the listed ids are dropped |
| SpaceActions.RemoveUnusedConnectionTypes | src/store/currentSpace.js:498-507 | exactly the connection types that some connection uses remain, one removal queued per unused type |
| SpaceActions.SelectedCards | src/store/currentSpace.js:287 | exactly the cards whose id is selected |
| SpaceActions.InnerConnections | src/store/currentSpace.js:288-292 | exactly the connections with both ends selected |
| SpaceActions.SelectedItems | src/store/currentSpace.js:285-301 | selected cards, connections between two selected cards, and exactly the types those connections use |
| SpaceActions.RemoveOriginals | src/store/currentSpace.js:303-309 | no selected card stays in `cards` or `removedCards`, every other entry stays, and no remaining connection touches a selected card |
| SpaceActions.ToAnotherSpace | src/store/currentSpace.js:284-310 | hands over the selected items, and with originals removed nothing selected or attached to a selected card is left behind |
| UserNotifications.RecipientUserIds | src/store/userNotifications.js:120-141 | no duplicates, never the current user nor a falsy id, and a user is a recipient exactly when a member, a group user who added cards, or (in an open space only) a card contributor |
| UserNotifications.RecipientMemberIds | src/store/userNotifications.js:142-157 | the same exclusions and dedup over members and group users only |
| UserNotifications.RecipientsOfClosedSpace | src/store/userNotifications.js:122-135 | outside an open space both getters agree, and member recipients are always user recipients |
| UserNotifications.AddCardUpdatedAsWritten | src/store/userNotifications.js:61-79 | as written, every notification it queues names no space |
| UserNotifications.HelloSpaceNotifiedAsWritten | src/store/userNotifications.js:63-75 | as written, a card edited in the hello space is announced with no space id, where the corrected action sends nothing |
| UserNotifications.AddCardUpdated | src/store/userNotifications.js:61-79 | one notification exactly when there is a card id, the space is not the hello space, the card was not yet notified, the user can edit and there are recipients; the card is then recorded, otherwise nothing changes |
| UserNotifications.NotifiedAtMostOnce | src/store/userNotifications.js:64-78 | over any run of calls a card gets a notification exactly when it is newly recorded, so at most once, and never if recorded before |
| UserNotifications.AddSpaceToGroup | src/store/userNotifications.js:83-100 | nothing unless the user can edit and the group exists; the recipients are the group's other users without repeats, and nothing is sent exactly when there are none |

## Left out

- `src/router.js` and `src/api.js` are routing and network plumbing; the server's answer to `getSpace` is the `remote` parameter of `SpaceActions.LoadSpace`.
- The card-map web worker and its debounce timer, `cache.*` persistence, `nextTick`, `updateDimensions`, `updateDimensionsAndMap` and `updateCardMap` depend on timers, storage or browser layout.
- The DOM writes of `moveWhileDragging` and `moveWhileDraggingBroadcast`: the first is the `moves` of `CardActions.Move`, the second changes no store.
- `utils.cardPositionFromElement` is the `rendered` parameter of `CardActions.Move`, and the zoomed cursor arithmetic is folded into its integer `delta`.
- `utils.highestCardZ`, `utils.emptyCard` and `utils.objectHasKeys` are not part of this model's sources: they are taken as the largest z or 0, parameters for the empty card's size, and "the partial has any key".
- Dispatches into other modules (history, connections, user counters, page size, card details, the card limit) are not modelled; the limit check is the `shouldPreventAddCard` parameter of `CardActions.Add`.
- Other `currentCards` operations not named as core: `clear`, `restore`, `removedCards`, `cardMap`, `paste`, `updateCardName`, `toggleChecked`, `removeChecked`, `commentIsVisible`, `removeResize`, `mergeRemove`, `afterMove`, `checkIfShouldIncreasePageSize`, `incrementSelectedZs`, `deleteAllRemoved`, `showCardDetails`, and the getters `withSpaceLinks`, `withTagName`, `users` and `backgroundColors`.
- Card fields outside the `Card` record (`urlPreviewIsVisible`, `commentIsVisible`, `spaceId`, `nameUpdatedAt`, paths); a partial update can name only the record's fields, and an incoming card in `mergeUnique` carries all of them.
- The `update` action's deletion of a null `x` or `y`: an absent key is already `None`.
- Other `currentSpace` operations not named as core: `updateBetaSpace`, `addSpace`, `createNewSpace`, `createNewHelloSpace`, `changeSpace`, `removeCurrentSpace`, `removeSpacePermanent`, `addCard`, `createCard`, `updateCard`, `dragCards`, `dragMultipleCards`, `dragSingleCard`, `updatePositions`, `incrementSelectedCardsZ`, `updateCardConnectionPaths`, `updateCardConnections`, `removeSelectedConnectionsFromCard`, `updateConnectionTypeForConnection`, `addConnectionType`, `updateConnectionType`, and the getters `cardById`, `connectionTypeById`, `lastConnectionType` and `cardConnectionTypes`.
- `restoreSpace` appears only inside `SpaceActions.Restored` and `SpaceActions.LoadSpace`; `loadingSpace` commits and the `await` are not modelled, and `updatedAt` is already a Unix time.
- CardActions.Move: the `updateConnectionPaths` broadcast and the queued `updateConnection` operations carry connection ids only, not the records with their recomputed paths; `currentConnections/byCardId` is the `connectionsOf` parameter, and `updatePathsWhileDragging` and `cardsWereDragged` belong to other modules.
- CurrentSpace.UpdateSpace: only the keys the `Space` record holds; keys such as the background are not modelled, and `cache.updateSpace` is persistence.
- SpaceActions.Restored and SpaceActions.LoadSpace: a cached or remote space is taken to be a complete record that replaces the state, whereas `restoreSpace` overlays it with `Object.assign`, so a key missing from the snapshot would keep its old value.
- `nanoid` and `randomColor` become parameters (`freshId`, `freshIds`).
- `currentSpace/members`, `currentCards/groupUsersWhoAddedCards`, `groups/byId` and `currentUser/canEditSpace` are not part of this model's sources; their results are inputs.
- The other notification actions `addFavoriteUser`, `removeFavoriteUser`, `addFavoriteSpace`, `removeFavoriteSpace` and `addAskToAddToExplore` are not named as core.
- CardActions.ResizeSetsWidth: the exact width is stated for a list without repeats; a card listed twice is resized twice, the second time from its already resized width, and for it only the bound of `CardActions.ResizeWidthsAtLeastMin` is stated.
- CurrentSpace.RemoveCard: an id that no card carries leaves the space as it was, whereas the source unshifts `undefined` onto `removedCards`, which a sequence of cards cannot hold.
- UserNotifications.AddSpaceToGroup: takes the id of the current space, whereas the source reads `context.state.id`, which is `undefined` for the reason given in the second finding.
- CurrentSpace.RemovedAfterRestoreAsWritten: models only the removed stack; as written, the source also pushes `undefined` onto `cards` for an unknown id.

## Findings

| source | as written | input that shows it | evidently intended | confidence | as-written member | corrected member |
|---|---|---|---|---|---|---|
| src/store/currentSpace.js:118-125 | `findIndex` gives -1 for an id with no removed card, and `splice(-1, 1)` then deletes the last (oldest) removed card | a removed stack `[a]` and `restoreCard` of an id that `a` does not carry | restoring an unknown id changes nothing | high, not executed | CurrentSpace.RestoreAsWrittenDropsOldest (on CurrentSpace.RemovedAfterRestoreAsWritten) | CurrentSpace.RestoreCard (with CurrentSpace.RemoveThenRestore) |
| src/store/userNotifications.js:61-79 | `addCardUpdated` reads `context.state.name` and `context.state.id`, but the module declares no state, so both are `undefined`: the hello-space guard never fires and the notification carries no space id | a card edited, by an editor with one recipient, in the space named "Hello Kinopio" | read the current space's name and id | medium, not executed | UserNotifications.HelloSpaceNotifiedAsWritten (on UserNotifications.AddCardUpdatedAsWritten) | UserNotifications.AddCardUpdated (with UserNotifications.NotifiedAtMostOnce) |
| src/store/currentCards.js:586-599 | removing a card with no name deletes it for good, yet broadcasts it to `currentCards/remove`, so each peer soft-removes it onto its removed stack | a store holding a card whose name is empty, and `remove` of that card | peers delete the card as well | medium, not executed | PeerConvergence.RemoveAsWrittenDivergesAtPeer (on CardActions.RemoveAsWritten) | PeerConvergence.RemoveReplaysAtPeer (on CardActions.Remove) |
