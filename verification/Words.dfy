// The machine's unsigned integers and a few functions on numbers, shared by all
// other modules.
module Words {

  type byte = x: int | 0 <= x < 0x100
  type u8 = byte
  type u16 = x: int | 0 <= x < 0x1_0000
  type u32 = x: int | 0 <= x < 0x1_0000_0000

  /** What a field of 16 bits holds after a is assigned to it. */
  function Low16(a: int): (w: u16)
    ensures 0 <= a < 0x1_0000 ==> w == a
  {
    a % 0x1_0000
  }

  /** The same for 8 bits. */
  function Low8(a: int): (w: u8)
    ensures 0 <= a < 0x100 ==> w == a
  {
    a % 0x100
  }

  function Min(a: int, b: int): int { if a < b then a else b }

  function Max(a: int, b: int): int { if a < b then b else a }

  function ToInt(b: bool): int { if b then 1 else 0 }
}
