/**
 * A slot that may be empty: a cell of the grid (an owning pointer that may be
 * null) or the offspring a reproduction attempt may produce.
 */
module Slots {

  datatype Slot<+T> = None | Some(value: T)
}
