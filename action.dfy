/** What an agent hands back to the game driver; the action types themselves
    live in action.h, which is not part of this model. */
module Actions {

  /** `action()` is `NoAction`; `action::slide(op)` and
      `action::place(pos, tile, hint)` carry their arguments. */
  datatype Action = NoAction | Slide(op: int) | Place(pos: int, tile: int, hint: int)
}
