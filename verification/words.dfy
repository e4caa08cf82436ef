/** Words, prefixes and the end-of-text marker of the order-2 Markov chain
    (markov.c:7-11, markov.c:34). */
module Words {

  /** An `unsigned char`. */
  type uint8 = bv8

  /** The bytes of a C string, without its terminator. Words are compared by
      content (`strcmp`), never by pointer, so value semantics is exact. */
  type Word = seq<uint8>

  /** Number of words in a prefix (`NPREF`). */
  const NPREF: nat := 2

  /** The marker `"\n"` that no token read with `%s` can equal: it pads the
      window before the first word and is recorded as the last successor. */
  const NoWord: Word := [10]

  /** An `NPREF`-word window, the key of the state table. */
  type Prefix = p: seq<Word> | |p| == NPREF witness [NoWord, NoWord]

  /** The window of all markers that both the build and the generator start from. */
  const Start: Prefix := [NoWord, NoWord]

  /** The `memmove` plus last-slot assignment of markov.c:99-100 and
      markov.c:139-140: the oldest word leaves, `w` enters at the end. */
  function Shift(window: Prefix, w: Word): (r: Prefix)
    ensures r[NPREF - 1] == w
    ensures forall i | 0 <= i < NPREF - 1 :: r[i] == window[i + 1]
  {
    window[1..] + [w]
  }
}
