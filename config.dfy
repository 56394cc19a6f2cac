/** The constants of api/config.js that the word-finding engine uses. */
module Config {
  /** Number of tiles per board row (BOARD_LENGTH). */
  const BoardLength: nat := 4

  /** Key under which a trie node stores the word ending there (END_SYMBOL). */
  const EndSymbol: char := '!'

  /** The tile that matches any one letter (WILDCARD_SYMBOL). */
  const Wildcard: string := "*"

  /** The largest number of wildcards createGame accepts on a board. */
  const MaxWildcards: nat := 8
}
