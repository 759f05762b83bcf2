/** Verifying a payer's commitment and submitting it to the table. */
module Custody {
  import opened Wrappers
  import opened Bytes
  import opened Postgres
  import opened CommitmentsTable

  /** ed25519.Verify(key, message, signature), kept uninterpreted. */
  type Verifier = (Bytes, Bytes, Bytes) -> bool

  datatype VerifyError = NilAmount | NonPositiveAmount | InvalidSignerKey | PrepareFailed

  /** A channel's reader: what simulating prepare_commitment for an amount returns, the
      bytes to be signed, or None when the simulation fails. */
  type ChannelReader = int -> Option<Bytes>

  /** An error when the verification could not be completed, otherwise the verdict on
      the signature over the bytes the channel prepares for this amount. */
  function VerifyCommitment(ed: Verifier, channel: ChannelReader, trustedSignerKey: Bytes,
                            amount: Option<int>, signature: Bytes): Result<bool, VerifyError>
  {
    if amount.None? then Failure(NilAmount)
    else if amount.value <= 0 then Failure(NonPositiveAmount)
    else if |trustedSignerKey| != 32 then Failure(InvalidSignerKey)
    else
      var message := channel(amount.value);
      if message.None? then Failure(PrepareFailed)
      else Success(ed(trustedSignerKey, message.value, signature))
  }

  datatype SubmittedCommitment = SubmittedCommitment(
    channel: string,
    amount: Option<int>,
    signature: Bytes,
    trustedSignerKey: Bytes)

  datatype Record = Record(
    id: nat,
    channel: string,
    amount: int,
    signature: Bytes,
    signerKey: Bytes,
    verifiedAt: int,
    valid: bool,
    alreadyRecorded: bool)

  datatype SubmitError =
    | SubmitNilAmount
    | VerificationIncomplete(cause: VerifyError)
    | ErrMonotonicViolation
    | InsertFailed
    | ReadBackFailed

  function InsertWithFault(t: Table, v: Values, now: int, fault: Fault): (Table, InsertReply) {
    match fault
    case NoFault => Insert(t, v, now)
    case FailsBefore => (t, OtherError)
    case LostReply => (Insert(t, v, now).0, OtherError)
  }

  function ValuesOf(sc: SubmittedCommitment, valid: bool): Values
    requires sc.amount.Some?
  {
    Values(sc.channel, sc.amount.value, sc.signature, sc.trustedSignerKey, valid)
  }

  function ReadBack(t: Table, sc: SubmittedCommitment, readFails: bool): Result<Record, SubmitError>
    requires sc.amount.Some?
  {
    var row := Find(t.rows, sc.channel, sc.amount.value);
    if readFails || row.None? then Failure(ReadBackFailed)
    else
      Success(Record(row.value.id, sc.channel, sc.amount.value, sc.signature, sc.trustedSignerKey,
                     row.value.verifiedAt, row.value.valid, true))
  }

  /** What a Submit that nothing interrupts does to the table and returns. */
  function SubmitAlone(ed: Verifier, t: Table, channel: ChannelReader, sc: SubmittedCommitment,
                       now: int, fault: Fault, readFails: bool): (Table, Result<Record, SubmitError>)
  {
    if sc.amount.None? then (t, Failure(SubmitNilAmount))
    else
      match VerifyCommitment(ed, channel, sc.trustedSignerKey, sc.amount, sc.signature)
      case Failure(e) => (t, Failure(VerificationIncomplete(e)))
      case Success(valid) =>
        var (t', reply) := InsertWithFault(t, ValuesOf(sc, valid), now, fault);
        match reply
        case Inserted(id, verifiedAt, gotValid) =>
          (t', Success(Record(id, sc.channel, sc.amount.value, sc.signature, sc.trustedSignerKey,
                              verifiedAt, gotValid, false)))
        case NoRows => (t', ReadBack(t', sc, readFails))
        case MonotonicViolation => (t', Failure(ErrMonotonicViolation))
        case OtherError => (t', Failure(InsertFailed))
  }

  class Store {
    const pool: Database

    constructor (pool: Database)
      ensures this.pool == pool
    {
      this.pool := pool;
    }

    /** The insert as Submit sees it, with the faults of the connection. */
    method QueryInsert(v: Values, now: int, fault: Fault) returns (reply: InsertReply)
      modifies pool
      ensures (pool.Contents(), reply) == InsertWithFault(old(pool.Contents()), v, now, fault)
    {
      if fault.FailsBefore? {
        return OtherError;
      }
      reply := pool.InsertCommitment(v, now);
      if fault.LostReply? {
        reply := OtherError;
      }
    }

    method Submit(ed: Verifier, channel: ChannelReader, sc: SubmittedCommitment, now: int,
                  fault: Fault, readFails: bool)
      returns (r: Result<Record, SubmitError>)
      modifies pool
      ensures (pool.Contents(), r) == SubmitAlone(ed, old(pool.Contents()), channel, sc, now, fault, readFails)
    {
      if sc.amount.None? {
        return Failure(SubmitNilAmount);
      }
      var verified := VerifyCommitment(ed, channel, sc.trustedSignerKey, sc.amount, sc.signature);
      if verified.Failure? {
        return Failure(VerificationIncomplete(verified.error));
      }
      var reply := QueryInsert(ValuesOf(sc, verified.value), now, fault);
      match reply {
        case Inserted(id, verifiedAt, gotValid) =>
          r := Success(Record(id, sc.channel, sc.amount.value, sc.signature, sc.trustedSignerKey,
                              verifiedAt, gotValid, false));
        case NoRows =>
          var existing := Find(pool.rows, sc.channel, sc.amount.value);
          if readFails || existing.None? {
            return Failure(ReadBackFailed);
          }
          r := Success(Record(existing.value.id, sc.channel, sc.amount.value, sc.signature,
                              sc.trustedSignerKey, existing.value.verifiedAt, existing.value.valid, true));
        case MonotonicViolation =>
          r := Failure(ErrMonotonicViolation);
        case OtherError =>
          r := Failure(InsertFailed);
      }
    }
  }
}
