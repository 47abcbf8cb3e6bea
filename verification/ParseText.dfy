/** What the two bitmap parsers share. */
module ParseText {
  const NUL: char := '\0'

  predicate IsSpace(c: char) {
    c == ' ' || c == '\t' || c == '\n' || c == '\r' || c == 11 as char || c == 12 as char
  }

  /** The bits read, or an error number. */
  datatype Outcome = Parsed(bits: set<int>) | Error(errno: int)

  /** After one character: go on, the end of an item, or an error. */
  datatype Next<S> = Go(s: S) | EndItem | Stop(errno: int)
}
