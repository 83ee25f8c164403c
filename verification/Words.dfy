/** The source's 64-bit words, unsigned and signed. */
module Words {

  const WORD := 0x1_0000_0000_0000_0000
  const HALF_WORD := 0x8000_0000_0000_0000

  /** A register number as the sketch stores it. */
  type Key = k: nat | k < WORD

  /** A word read as a signed number, and back. */
  function ToInt64(word: Key): int {
    if word < HALF_WORD then word else word - WORD
  }

  function ToUint64(x: int): Key {
    x % WORD
  }

  lemma WordRoundTrip(word: Key)
    ensures ToUint64(ToInt64(word)) == word
    ensures -HALF_WORD <= ToInt64(word) < HALF_WORD
  {
  }
}
