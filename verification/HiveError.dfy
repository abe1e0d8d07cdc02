/** Error numbers (`HIVE_MK_ERROR`, an unsigned 32-bit expression) and what C makes of them in an `int` or an `ssize_t`. */
module HiveError {
  const GENERAL := 0x01
  const SYS := 0x02
  const CURL := 0x05
  const HTTP_STATUS := 0x07

  const OUT_OF_MEMORY := 0x02
  const BUFFER_TOO_SMALL := 0x03
  const BAD_PERSISTENT_DATA := 0x04
  const INVALID_PERSISTENCE_FILE := 0x05
  const BAD_BOOTSTRAP_HOST := 0x13
  const BAD_JSON_FORMAT := 0x16
  const TRY_AGAIN := 0x17

  const INT_LIMIT := 0x8000_0000
  const UNSIGNED_LIMIT := 0x1_0000_0000

  /** `HIVE_MK_ERROR`; its bit fields do not overlap for codes below 2^24. This is also its value as an `ssize_t`: positive. */
  function MkError(facility: nat, code: nat): (e: nat)
    requires facility < 0x80 && code < 0x100_0000
    ensures INT_LIMIT <= e < UNSIGNED_LIMIT
  {
    INT_LIMIT + facility * 0x100_0000 + code
  }

  /** `HIVE_MK_ERROR` returned from a function of type `int`: negative. */
  function Error(facility: nat, code: nat): (e: int)
    requires facility < 0x80 && code < 0x100_0000
    ensures -INT_LIMIT <= e < 0
  {
    MkError(facility, code) - UNSIGNED_LIMIT
  }

  const NO_MEMORY := Error(GENERAL, OUT_OF_MEMORY)
  const BAD_JSON := Error(GENERAL, BAD_JSON_FORMAT)
  const NO_MEMORY_AS_SIZE := MkError(GENERAL, OUT_OF_MEMORY)
  const TOO_SMALL_AS_SIZE := MkError(GENERAL, BUFFER_TOO_SMALL)

  /** `(int)n` for an `ssize_t` */
  function AsInt(n: int): (i: int)
    ensures -INT_LIMIT <= i < INT_LIMIT
    ensures -INT_LIMIT <= n < INT_LIMIT ==> i == n
    ensures INT_LIMIT <= n < UNSIGNED_LIMIT ==> i == n - UNSIGNED_LIMIT
  {
    var w := n % UNSIGNED_LIMIT;
    if w < INT_LIMIT then w else w - UNSIGNED_LIMIT
  }

  /** Different facilities or codes make different errors. */
  lemma ErrorsDiffer(f: nat, c: nat, g: nat, d: nat)
    requires f < 0x80 && g < 0x80 && c < 0x100_0000 && d < 0x100_0000
    ensures Error(f, c) == Error(g, d) <==> f == g && c == d
  {
  }
}
