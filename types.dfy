/** The value types of the clock face: colours, the palette and one time segment. */
module Types {

  /** C's `uint8_t` and `uint16_t`. */
  type uint8 = x: int | 0 <= x < 0x100
  type uint16 = x: int | 0 <= x < 0x1_0000

  /** Conversion of a C `int` to `uint8_t`: reduction modulo 2^8. */
  function ToUint8(x: int): (r: uint8)
    ensures (x - r) % 0x100 == 0
    ensures 0 <= x < 0x100 ==> r == x
  {
    x % 0x100
  }

  /** Conversion of a C `int` to `uint16_t`: reduction modulo 2^16. */
  function ToUint16(x: int): (r: uint16)
    ensures (x - r) % 0x1_0000 == 0
    ensures 0 <= x < 0x1_0000 ==> r == x
  {
    x % 0x1_0000
  }

  /** One two-bit channel of the platform's 8-bit ARGB colour. */
  type Channel = x: int | 0 <= x < 4

  datatype GColor = GColor(r: Channel, g: Channel, b: Channel, a: Channel)

  /** The names of the eight palette entries. */
  datatype Entry = Red | Yellow | Blue | Orange | Green | Purple | All | None

  /** The eight named colours, resolved once when the window loads. */
  datatype Palette = Palette(red: GColor, yellow: GColor, blue: GColor, orange: GColor,
                             green: GColor, purple: GColor, all: GColor, none: GColor)
  {
    function Get(e: Entry): GColor {
      match e
      case Red => red
      case Yellow => yellow
      case Blue => blue
      case Orange => orange
      case Green => green
      case Purple => purple
      case All => all
      case None => none
    }
  }

  /** One ring segment: its colour, its angle in the SDK's 0..0xFFFF unit, and its unit tag. */
  datatype TimeSegment = TimeSegment(color: GColor, value: uint16, unit: char)
}
