/** The error codes of codec/error.h that the modelled commands return. */
module Errors {
  const MKEY_DECODEC_ERR: int := -4
  const INVALID_INT: int := -8
  const INVALID_INCR_LEN: int := -10
  const INDEX_OUT_OF_RANGE: int := -12
  const SYNTAX_ERR: int := -14
  const INVALID_EX_TIME: int := -15
  const NAN_SCORE: int := -17
  const BUSY_KEY_EXISTS: int := -20
  const INVALID_DUMP_STR: int := -21
}
