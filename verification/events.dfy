/** The values that cross the core boundary, and the integer width of the queue counts. */
module Events {

  /** An unsigned 8-bit integer, the type of the two queue counts. */
  newtype uint8 = x: int | 0 <= x < 256

  /** One physical key transition: usage page, key code and direction. */
  datatype KeyboardEvent = KeyboardEvent(page: int, keycode: int, down: bool)

  /** A pointer report. The core only copies it by value, so its layout is illustrative. */
  datatype MouseEvent = MouseEvent(dx: int, dy: int, buttons: int)
}
