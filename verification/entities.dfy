/** The card record shared by both card stores, and the positions that drag
    gestures produce. */
module Entities {
  import opened Common

  /** A card on the canvas. Ids are strings; the empty string stands for every
      falsy id (`undefined`, `null`, `''`). Positions are integers: rounding is
      applied where the store writes them. `resizeWidth` is absent until an
      image card is resized (and `null` again after `removeResize`). */
  datatype Card = Card(
    id: string,
    x: int,
    y: int,
    z: int,
    width: int,
    height: int,
    name: string,
    frameId: int,
    userId: string,
    nameUpdatedByUserId: string,
    backgroundColor: string,
    isLocked: bool,
    isRemoved: bool,
    resizeWidth: Option<int>)

  /** A card that carries nothing but its id, as built by `{ id: cardId }`:
      every other field is falsy. */
  function BareCard(id: string): (c: Card)
    ensures c.id == id && c.name == ""
  {
    Card(id, 0, 0, 0, 0, 0, "", 0, "", "", "", false, false, None)
  }

  /** The `{x, y, z, id}` record that move gestures send and replay. */
  datatype Position = Position(id: string, x: int, y: int, z: int)
}
