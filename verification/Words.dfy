/** The machine's 32-bit words, and the option type the C sources spell as NULL. */
module Words {
  const WRAP: int := 0x1_0000_0000

  type Word = x: int | 0 <= x < 0x1_0000_0000

  datatype Option<+T> = None | Some(value: T)

  function Mod32(x: int): Word {
    x % 0x1_0000_0000
  }
}
