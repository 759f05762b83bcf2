/** What the tables share: the ranges of the column types, and what can go wrong on
    the way to the database. */
module Postgres {
  /** INTEGER has four bytes and BIGINT eight; values from 10^39 on do not fit NUMERIC(39, 0). */
  const MAX_INTEGER := 0x7FFF_FFFF
  const MAX_BIGINT := 0x7FFF_FFFF_FFFF_FFFF
  const NUMERIC_LIMIT := 1_000_000_000_000_000_000_000_000_000_000_000_000_000

  /** One statement: it fails with nothing written, or it takes effect and only its
      reply is lost. */
  datatype Fault = NoFault | FailsBefore | LostReply
}
