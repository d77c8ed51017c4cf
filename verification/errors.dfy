/** Error codes the compressor driver returns. The numbers are those of the
    program's Error.hpp (that header is not part of this model); the proofs
    only use that each is non-zero and that they differ from each other. */
module Errors {
  const ERR_CREATE_COMPRESSOR: int := 4
  const ERR_OUTPUT_IS_DIR: int := 6
  const ERR_OVERWRITE_FILE: int := 7
  const ERR_CREATE_FILE: int := 8
  const ERR_OPEN_FILE: int := 10
  const ERR_READ_FILE: int := 11
  const ERR_WRITE_FILE: int := 12
  const ERR_UNKNOWN: int := 127
}
