/** What the two polling reads of the stream manager share. */
module Polling {

  /** The timeout a reader sees at try n: the initial one, then whatever others have set it to. */
  function TimeoutAt(initial: int, later: nat -> int, n: nat): int {
    if n == 0 then initial else later(n)
  }
}
