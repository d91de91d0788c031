/** Machine words as numbers: 32 bits for the kernel's `u32` and `usz`, 64 for its `u64`. */
module Words {
  const WORD: nat := 0x1_0000_0000
  const U64: nat := 0x1_0000_0000_0000_0000

  type u16 = n: nat | n < 0x10000
  type u32 = n: nat | n < WORD

  /** Addition on 32-bit words: a carry out of the top bit is dropped. */
  function Add32(a: u32, b: u32): u32 {
    if a + b < WORD then a + b else a + b - WORD
  }

  /** Subtraction on 32-bit words. */
  function Sub32(a: u32, b: u32): u32 {
    if a >= b then a - b else a + WORD - b
  }

  lemma Add32Mod(a: u32, b: u32)
    ensures Add32(a, b) == (a + b) % WORD
  {
  }

  lemma Sub32Mod(a: u32, b: u32)
    ensures Sub32(a, b) == (a - b) % WORD
  {
  }

  datatype Option<+T> = None | Some(value: T)
}
