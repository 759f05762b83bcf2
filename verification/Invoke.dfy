/** Invoking a contract: simulate, sign, send once, and poll until it settles. */
module Invoke {
  import opened Wrappers
  import opened Bytes
  import opened ScVals
  import opened Authorization

  // ----- what is sent -----

  datatype Operation = Operation(contract: ScAddress, functionName: string, args: seq<ScVal>, auth: seq<AuthEntry>)

  /** `sorobanData` is None in a transaction that is only simulated. */
  datatype Transaction = Transaction(
    source: Hash, fee: uint32, seqNum: int64, op: Operation, sorobanData: Option<Bytes>)

  /** One request to the node. */
  datatype Call =
    | FetchSequence(account: string)
    | Simulate(tx: Transaction)
    | Send(tx: Transaction)
    | GetTransaction(hash: string)

  // ----- what comes back -----

  /** A recorded entry is None where it cannot be decoded. */
  datatype SimResult = SimResult(auth: seq<Option<AuthEntry>>)

  datatype FeeText = NoFee | Fee(amount: int64) | BadFee

  datatype SimReply =
    | SimFailed
    | Simulated(error: string, results: seq<SimResult>, transactionData: Option<Bytes>, minResourceFee: FeeText)

  datatype SendStatus = SendError | SendPending | SendDuplicate | SendOther

  datatype SendReply = SendFailed | Sent(status: SendStatus, hash: string)

  datatype TxStatus = TxSuccess | TxFailed | TxNotFound

  /** `returnValue` is None where the result metadata holds none. */
  datatype PollReply = PollFailed | Polled(status: TxStatus, returnValue: Option<ScVal>)

  /** Everything outside the program: the node's replies, which envelopes can be
      encoded, whether signing works, the clock (in milliseconds) when polling starts
      and when it is read after each query, and whether the context is done then. */
  datatype Environment = Environment(
    sequence: Option<int64>,
    encodes: Transaction -> bool,
    firstSim: SimReply,
    secondSim: SimReply,
    signs: bool,
    send: SendReply,
    polls: nat -> PollReply,
    pollStart: int,
    clock: nat -> int,
    cancelled: nat -> bool)

  datatype Stage =
    | AtSequence | AtOperation | AtEncoding | AtSimulation | SimulationRejected(message: string) | NoResults
    | AtAuthEntries | AtTransactionData | AtFee | AtSigning | AtSend | SendRejected | UnexpectedStatus
    | AtPoll | PollTimedOut | PollCancelled | TransactionFailed | NoReturnValue

  const BASE_FEE := 100
  const POLL_INTERVAL := 2000
  const POLL_TIMEOUT := 30000

  // ----- polling -----

  /** time.After waits for at least the interval it is given. */
  ghost predicate WaitsInFull(env: Environment) {
    && env.clock(0) >= env.pollStart
    && forall i: nat, j: nat | j == i + 1 :: env.clock(j) >= env.clock(i) + POLL_INTERVAL
  }

  /** Query number i (from 0) is the last one. */
  predicate LastQuery(env: Environment, i: nat) {
    env.polls(i).PollFailed? || !env.polls(i).status.TxNotFound?
    || env.clock(i) > env.pollStart + POLL_TIMEOUT || env.cancelled(i)
  }

  lemma {:induction false} ClockAfter(env: Environment, i: nat)
    requires WaitsInFull(env)
    ensures env.clock(i) >= env.pollStart + i * POLL_INTERVAL
  {
    if i > 0 {
      ClockAfter(env, i - 1);
      assert env.clock(i) >= env.clock(i - 1) + POLL_INTERVAL;
    }
  }

  /** What polling returns when query i is the last. */
  function PollOutcome(env: Environment, i: nat): Result<PollReply, Stage> {
    if env.polls(i).PollFailed? then Failure(AtPoll)
    else if !env.polls(i).status.TxNotFound? then Success(env.polls(i))
    else if env.clock(i) > env.pollStart + POLL_TIMEOUT then Failure(PollTimedOut)
    else Failure(PollCancelled)
  }

  /** Polling stops at the first query that settles it, after at most 17 of them. */
  method PollTransaction(env: Environment, hash: string) returns (r: Result<PollReply, Stage>, trace: seq<Call>)
    requires WaitsInFull(env)
    ensures 0 < |trace| <= 17 && forall k | 0 <= k < |trace| :: trace[k] == GetTransaction(hash)
    ensures LastQuery(env, |trace| - 1) && forall i | 0 <= i < |trace| - 1 :: !LastQuery(env, i)
    ensures r == PollOutcome(env, |trace| - 1)
  {
    trace := [];
    var deadline := env.pollStart + POLL_TIMEOUT;
    while true
      invariant forall k | 0 <= k < |trace| :: trace[k] == GetTransaction(hash)
      invariant forall i | 0 <= i < |trace| :: !LastQuery(env, i)
      invariant |trace| <= 16
      decreases 16 - |trace|
    {
      var i := |trace|;
      ClockAfter(env, i);
      trace := trace + [GetTransaction(hash)];
      var reply := env.polls(i);
      if reply.PollFailed? {
        return Failure(AtPoll), trace;
      }
      if !reply.status.TxNotFound? {
        return Success(reply), trace;
      }
      if env.clock(i) > deadline {
        return Failure(PollTimedOut), trace;
      }
      if env.cancelled(i) {
        return Failure(PollCancelled), trace;
      }
    }
  }

  /** The bound of 17 is reached: with waits of exactly the interval and a transaction
      that never shows up, the seventeenth query is the first that can be the last. */
  lemma SeventeenQueriesHappen(env: Environment)
    requires env.pollStart == 0
    requires forall i: nat ::
      env.polls(i) == Polled(TxNotFound, None) && env.clock(i) == i * POLL_INTERVAL && !env.cancelled(i)
    ensures WaitsInFull(env) && LastQuery(env, 16) && forall i | 0 <= i < 16 :: !LastQuery(env, i)
  {
  }

  // ----- up to the transaction that is sent -----

  /** int64 arithmetic: the sequence number after n. */
  function NextSequence(n: int64): int64 {
    if n == 0x7FFF_FFFF_FFFF_FFFF then -0x8000_0000_0000_0000 else n + 1
  }

  /** xdr.Uint32(baseFee + minResourceFee): the sum truncated to 32 bits. */
  function FeeOf(f: FeeText): uint32
    requires !f.BadFee?
  {
    var min := if f.NoFee? then 0 else f.amount;
    (BASE_FEE + min) % TWO_32
  }

  function AccountKey(strkey: Strkey, address: string): Option<Hash> {
    match strkey(address)
    case Some((AccountID, raw)) => if |raw| == 32 then Some(raw) else None
    case _ => None
  }

  function BuildOperation(strkey: Strkey, contractID: string, functionName: string, args: seq<ScVal>,
                          auth: seq<AuthEntry>): Option<Operation>
  {
    match ScAddressOf(strkey, contractID)
    case Failure(_) => None
    case Success(a) => Some(Operation(a, functionName, args, auth))
  }

  function Decoded(auth: seq<Option<AuthEntry>>): (r: Option<seq<AuthEntry>>)
    ensures r.Some? <==> forall a | a in auth :: a.Some?
    ensures r.Some? ==> |r.value| == |auth| && forall i | 0 <= i < |auth| :: auth[i] == Some(r.value[i])
  {
    if auth == [] then Some([])
    else
      assert auth == auth[..|auth| - 1] + [auth[|auth| - 1]];
      match (Decoded(auth[..|auth| - 1]), auth[|auth| - 1])
      case (Some(front), Some(last)) => Some(front + [last])
      case _ => None
  }

  method DecodeAuthEntries(auth: seq<Option<AuthEntry>>) returns (r: Option<seq<AuthEntry>>)
    ensures r == Decoded(auth)
  {
    var out: seq<AuthEntry> := [];
    for i := 0 to |auth|
      invariant Decoded(auth[..i]) == Some(out)
    {
      assert auth[..i + 1][..i] == auth[..i];
      if auth[i].None? {
        assert auth[i] in auth;
        return None;
      }
      out := out + [auth[i].value];
    }
    assert auth[..|auth|] == auth;
    r := Some(out);
  }

  /** A simulation the program accepts: it ran, reported no error, and has a result. */
  predicate Clean(s: SimReply) {
    s.Simulated? && s.error == "" && s.results != []
  }

  /** Why a simulation is not accepted. */
  function SimStage(s: SimReply): Stage
    requires !Clean(s)
  {
    if s.SimFailed? then AtSimulation
    else if s.error != "" then SimulationRejected(s.error)
    else NoResults
  }

  /** A call: who signs, what is invoked, and the entries other parties signed. */
  datatype Request = Request(
    signer: string, contractID: string, functionName: string, args: seq<ScVal>, extraAuth: seq<AuthEntry>)

  /** The simulation whose resources are attached: the second one when there is one. */
  function UsedSim(env: Environment, req: Request): SimReply {
    if req.extraAuth == [] then env.firstSim else env.secondSim
  }

  /** The transaction of the first pass: the operation with no authorization. */
  function BareTx(key: Hash, fetched: int64, contract: ScAddress, req: Request): Transaction {
    Transaction(key, BASE_FEE, NextSequence(fetched), Operation(contract, req.functionName, req.args, []), None)
  }

  /** `tx` is what the program may send: everything it rests on went well. It invokes
      what was asked for; it is authorized by the merge of what the first simulation
      recorded with the caller's entries; its sequence number follows the fetched one;
      and its resources and fee come from a clean simulation, which, when the caller
      brings entries, was one of this very operation. */
  ghost predicate MaySend(strkey: Strkey, env: Environment, req: Request, tx: Transaction) {
    && env.sequence.Some? && AccountKey(strkey, req.signer) == Some(tx.source)
    && ScAddressOf(strkey, req.contractID) == Success(tx.op.contract)
    && tx.op.functionName == req.functionName && tx.op.args == req.args
    && tx.seqNum == NextSequence(env.sequence.value)
    && env.encodes(BareTx(tx.source, env.sequence.value, tx.op.contract, req))
    && Clean(env.firstSim)
    && Decoded(env.firstSim.results[0].auth).Some?
    && tx.op.auth == Merged(Decoded(env.firstSim.results[0].auth).value, req.extraAuth)
    && (req.extraAuth != [] ==> env.encodes(tx.(fee := BASE_FEE, sorobanData := None)) && Clean(env.secondSim))
    && tx.sorobanData.Some? && tx.sorobanData == UsedSim(env, req).transactionData
    && !UsedSim(env, req).minResourceFee.BadFee? && tx.fee == FeeOf(UsedSim(env, req).minResourceFee)
    && env.signs && env.encodes(tx)
  }

  /** The requests that go before a send: the sequence number, the bare simulation,
      and, when the caller brings entries, a simulation of the final operation. */
  ghost predicate Prelude(env: Environment, req: Request, tx: Transaction, trace: seq<Call>)
    requires env.sequence.Some?
  {
    var bare := BareTx(tx.source, env.sequence.value, tx.op.contract, req);
    trace == [FetchSequence(req.signer), Simulate(bare)]
      + (if req.extraAuth == [] then [] else [Simulate(bare.(op := tx.op))])
  }

  /** Only the sequence number was asked for, and simulations of what the caller wants. */
  ghost predicate OnlyAsks(env: Environment, req: Request, trace: seq<Call>) {
    forall c | c in trace :: c == FetchSequence(req.signer) || (c.Simulate? && IsTrial(env, req, c.tx))
  }

  /** A transaction that is simulated: the caller's call, with the next sequence number,
      the base fee and no resources. */
  ghost predicate IsTrial(env: Environment, req: Request, tx: Transaction) {
    && env.sequence.Some? && tx.seqNum == NextSequence(env.sequence.value)
    && tx.op.functionName == req.functionName && tx.op.args == req.args
    && tx.fee == BASE_FEE && tx.sorobanData == None
  }

  /** The sequence number is there and the operation can be built. */
  ghost predicate GotThrough(strkey: Strkey, env: Environment, req: Request) {
    && AccountKey(strkey, req.signer).Some? && env.sequence.Some?
    && ScAddressOf(strkey, req.contractID).Success?
  }

  /** What a failure before the send says is so: the stage's own check failed, and those
      of the stages before it went well. */
  ghost predicate Explains(strkey: Strkey, env: Environment, req: Request, stage: Stage) {
    match stage
    case AtSequence => AccountKey(strkey, req.signer).None? || env.sequence.None?
    case AtOperation =>
      AccountKey(strkey, req.signer).Some? && env.sequence.Some? && ScAddressOf(strkey, req.contractID).Failure?
    case AtEncoding => GotThrough(strkey, env, req) && exists tx ::
      !env.encodes(tx) && tx.op.functionName == req.functionName && tx.op.args == req.args
      && tx.seqNum == NextSequence(env.sequence.value)
    case AtSimulation => GotThrough(strkey, env, req)
      && (env.firstSim.SimFailed? || (Clean(env.firstSim) && req.extraAuth != [] && env.secondSim.SimFailed?))
    case SimulationRejected(m) => GotThrough(strkey, env, req) && m != ""
      && ((env.firstSim.Simulated? && env.firstSim.error == m)
          || (Clean(env.firstSim) && req.extraAuth != [] && env.secondSim.Simulated? && env.secondSim.error == m))
    case NoResults => GotThrough(strkey, env, req)
      && ((env.firstSim.Simulated? && env.firstSim.error == "" && env.firstSim.results == [])
          || (Clean(env.firstSim) && req.extraAuth != [] && env.secondSim.Simulated? && env.secondSim.error == ""
              && env.secondSim.results == []))
    case AtAuthEntries => GotThrough(strkey, env, req)
      && Clean(env.firstSim) && exists a | a in env.firstSim.results[0].auth :: a.None?
    case AtTransactionData => GotThrough(strkey, env, req)
      && Clean(env.firstSim) && Clean(UsedSim(env, req)) && UsedSim(env, req).transactionData.None?
    case AtFee => GotThrough(strkey, env, req)
      && Clean(env.firstSim) && Clean(UsedSim(env, req)) && UsedSim(env, req).transactionData.Some?
      && UsedSim(env, req).minResourceFee.BadFee?
    case AtSigning => GotThrough(strkey, env, req) && Clean(env.firstSim) && Clean(UsedSim(env, req)) && !env.signs
    case _ => false
  }

  /** Everything before the send. It succeeds exactly when some transaction may be
      sent, and returns that one. */
  method Prepare(strkey: Strkey, env: Environment, req: Request)
    returns (r: Result<Transaction, Stage>, trace: seq<Call>)
    ensures r.Success? ==> MaySend(strkey, env, req, r.value) && Prelude(env, req, r.value, trace)
    ensures r.Failure? ==> Explains(strkey, env, req, r.error) && forall tx :: !MaySend(strkey, env, req, tx)
    ensures OnlyAsks(env, req, trace)
  {
    trace := [];
    var source := AccountKey(strkey, req.signer);
    if source.None? {
      return Failure(AtSequence), trace;
    }
    trace := trace + [FetchSequence(req.signer)];
    if env.sequence.None? {
      return Failure(AtSequence), trace;
    }
    var unsignedOp := BuildOperation(strkey, req.contractID, req.functionName, req.args, []);
    if unsignedOp.None? {
      return Failure(AtOperation), trace;
    }
    var simTx := Transaction(source.value, BASE_FEE, NextSequence(env.sequence.value), unsignedOp.value, None);
    if !env.encodes(simTx) {
      return Failure(AtEncoding), trace;
    }
    trace := trace + [Simulate(simTx)];
    var simResult := env.firstSim;
    if !Clean(simResult) {
      return Failure(SimStage(simResult)), trace;
    }
    var recordedAuth := DecodeAuthEntries(simResult.results[0].auth);
    if recordedAuth.None? {
      return Failure(AtAuthEntries), trace;
    }
    var allAuth := MergeAuthEntries(recordedAuth.value, req.extraAuth);
    var finalOp := unsignedOp.value.(auth := allAuth);
    var more: seq<Call>;
    r, more := Attach(strkey, env, req, simTx, finalOp);
    forall tx | MaySend(strkey, env, req, tx) ensures Attaches(env, req, simTx, finalOp, tx) {
    }
    trace := trace + more;
  }

  /** From a clean first simulation of `bare` to the transaction that is sent for `op`:
      a second simulation when the caller brings entries, then the resources, the fee,
      the signature and the encoding. */
  ghost predicate Attaches(env: Environment, req: Request, bare: Transaction, op: Operation, tx: Transaction)
    requires Clean(env.firstSim)
  {
    && (req.extraAuth != [] ==> env.encodes(bare.(op := op)) && Clean(env.secondSim))
    && UsedSim(env, req).transactionData.Some? && !UsedSim(env, req).minResourceFee.BadFee?
    && tx == bare.(op := op, fee := FeeOf(UsedSim(env, req).minResourceFee),
                   sorobanData := UsedSim(env, req).transactionData)
    && env.signs && env.encodes(tx)
  }

  method Attach(strkey: Strkey, env: Environment, req: Request, bare: Transaction, op: Operation)
    returns (r: Result<Transaction, Stage>, trace: seq<Call>)
    requires Clean(env.firstSim) && GotThrough(strkey, env, req)
    requires IsTrial(env, req, bare) && op.functionName == req.functionName && op.args == req.args
    ensures r.Success? ==> Attaches(env, req, bare, op, r.value)
    ensures r.Success? ==> trace == if req.extraAuth == [] then [] else [Simulate(bare.(op := op))]
    ensures r.Failure? ==> Explains(strkey, env, req, r.error) && forall tx :: !Attaches(env, req, bare, op, tx)
    ensures OnlyAsks(env, req, trace)
  {
    trace := [];
    var simResult := env.firstSim;
    if |req.extraAuth| > 0 {
      var finalSimTx := bare.(op := op);
      if !env.encodes(finalSimTx) {
        return Failure(AtEncoding), trace;
      }
      trace := trace + [Simulate(finalSimTx)];
      simResult := env.secondSim;
      if !Clean(simResult) {
        return Failure(SimStage(simResult)), trace;
      }
    }
    if simResult.transactionData.None? {
      return Failure(AtTransactionData), trace;
    }
    if simResult.minResourceFee.BadFee? {
      return Failure(AtFee), trace;
    }
    var finalTx := bare.(op := op, fee := FeeOf(simResult.minResourceFee), sorobanData := simResult.transactionData);
    if !env.signs {
      return Failure(AtSigning), trace;
    }
    if !env.encodes(finalTx) {
      return Failure(AtEncoding), trace;
    }
    r := Success(finalTx);
  }

  // ----- the whole call -----

  datatype InvokeError = InvokeError(stage: Stage, hash: string)

  predicate Accepted(s: SendReply) {
    s.Sent? && (s.status.SendPending? || s.status.SendDuplicate?)
  }

  /** The query at which polling stops. */
  ghost predicate StopsAt(env: Environment, i: nat) {
    LastQuery(env, i) && forall j | 0 <= j < i :: !LastQuery(env, j)
  }

  predicate SucceededAt(env: Environment, i: nat) {
    env.polls(i).Polled? && env.polls(i).status.TxSuccess? && env.polls(i).returnValue.Some?
  }

  /** What a call reports once polling has stopped at query i. */
  function Settled(env: Environment, hash: string, i: nat): Result<(ScVal, string), InvokeError> {
    match PollOutcome(env, i)
    case Failure(stage) => Failure(InvokeError(stage, hash))
    case Success(reply) =>
      if !reply.Polled? || !reply.status.TxSuccess? then Failure(InvokeError(TransactionFailed, hash))
      else if reply.returnValue.None? then Failure(InvokeError(NoReturnValue, hash))
      else Success((reply.returnValue.value, hash))
  }

  method InvokeAndSubmit(strkey: Strkey, env: Environment, req: Request)
    returns (r: Result<(ScVal, string), InvokeError>, trace: seq<Call>)
    requires WaitsInFull(env)
    ensures Follows(strkey, env, req, r, trace)
  {
    var prepared, asked := Prepare(strkey, env, req);
    trace := asked;
    if prepared.Failure? {
      return Failure(InvokeError(prepared.error, "")), trace;
    }
    var finalTx := prepared.value;
    trace := trace + [Send(finalTx)];
    var sendResult := env.send;
    if !Accepted(sendResult) {
      r := Failure(
        if sendResult.SendFailed? then InvokeError(AtSend, "")
        else InvokeError(if sendResult.status.SendError? then SendRejected else UnexpectedStatus, sendResult.hash));
      assert trace == asked + [Send(finalTx)] + [];
      assert SentOnce(strkey, env, req, r, trace, finalTx, asked, []);
      return;
    }
    var txResult, queries := PollTransaction(env, sendResult.hash);
    trace := trace + queries;
    if txResult.Failure? {
      r := Failure(InvokeError(txResult.error, sendResult.hash));
    } else if !txResult.value.status.TxSuccess? {
      r := Failure(InvokeError(TransactionFailed, sendResult.hash));
    } else if txResult.value.returnValue.None? {
      r := Failure(InvokeError(NoReturnValue, sendResult.hash));
    } else {
      r := Success((txResult.value.returnValue.value, sendResult.hash));
    }
    assert SentOnce(strkey, env, req, r, trace, finalTx, asked, queries);
  }

  /** What the calls to the node and the result of one invocation are. With no
      transaction to send it only asked, and failed. Otherwise it asked, sent that
      transaction, and, if the node accepted it, queried until polling stopped. */
  ghost predicate Follows(strkey: Strkey, env: Environment, req: Request,
                          r: Result<(ScVal, string), InvokeError>, trace: seq<Call>)
  {
    || (r.Failure? && Explains(strkey, env, req, r.error.stage) && OnlyAsks(env, req, trace)
        && forall tx :: !MaySend(strkey, env, req, tx))
    || (exists tx, asked, queries :: SentOnce(strkey, env, req, r, trace, tx, asked, queries))
  }

  ghost predicate SentOnce(strkey: Strkey, env: Environment, req: Request, r: Result<(ScVal, string), InvokeError>,
                           trace: seq<Call>, tx: Transaction, asked: seq<Call>, queries: seq<Call>)
  {
    && MaySend(strkey, env, req, tx) && Prelude(env, req, tx, asked)
    && trace == asked + [Send(tx)] + queries
    && (env.send.SendFailed? ==> queries == [] && r == Failure(InvokeError(AtSend, "")))
    && (env.send.Sent? && !Accepted(env.send) ==> queries == [] && r == Failure(
          InvokeError(if env.send.status.SendError? then SendRejected else UnexpectedStatus, env.send.hash)))
    && (Accepted(env.send) ==>
          && 0 < |queries| <= 17 && StopsAt(env, |queries| - 1)
          && (forall k | 0 <= k < |queries| :: queries[k] == GetTransaction(env.send.hash))
          && (r.Success? <==> SucceededAt(env, |queries| - 1))
          && (r.Success? ==> r.value == (env.polls(|queries| - 1).returnValue.value, env.send.hash))
          && r == Settled(env, env.send.hash, |queries| - 1))
  }

  // ----- what follows for every environment -----

  /** The transaction that may be sent is determined. */
  lemma OneTransaction(strkey: Strkey, env: Environment, req: Request, t: Transaction, u: Transaction)
    requires MaySend(strkey, env, req, t) && MaySend(strkey, env, req, u)
    ensures t == u
  {
  }

  /** The calls around the one send: it comes right after the last simulation, and
      every call after it is a query. */
  lemma OnlySend(trace: seq<Call>, tx: Transaction, asked: seq<Call>, queries: seq<Call>, k: nat)
    requires trace == asked + [Send(tx)] + queries && k < |trace| && trace[k].Send?
    requires forall c | c in asked :: !c.Send?
    requires forall i | 0 <= i < |queries| :: !queries[i].Send?
    ensures k == |asked| && trace[k] == Send(tx) && forall j | 0 <= j < |trace| && trace[j].Send? :: j == k
  {
    forall j | 0 <= j < |asked| ensures !trace[j].Send? {
      assert trace[j] == asked[j] && asked[j] in asked;
    }
    forall j | |asked| < j < |trace| ensures !trace[j].Send? {
      assert trace[j] == queries[j - |asked| - 1];
    }
  }

  lemma QueriesComeLast(trace: seq<Call>, tx: Transaction, asked: seq<Call>, queries: seq<Call>, k: nat)
    requires trace == asked + [Send(tx)] + queries && k < |trace| && !trace[k].GetTransaction?
    requires forall i | 0 <= i < |queries| :: queries[i].GetTransaction?
    ensures trace[k] == Send(tx) || trace[k] in asked
  {
    forall j | |asked| < j < |trace| ensures trace[j].GetTransaction? {
      assert trace[j] == queries[j - |asked| - 1];
    }
    assert k < |asked| ==> trace[k] == asked[k];
  }

  /** What the last simulation before the send was of: exactly the operation sent when
      the caller brings entries, and that operation without authorization otherwise. */
  function SimulatedOp(req: Request, tx: Transaction): Operation {
    if req.extraAuth == [] then tx.op.(auth := []) else tx.op
  }

  /** At most one transaction is sent, whatever the node does. The call before it is an
      error-free simulation, whose resource data it carries; when the caller brings
      entries, that simulation was of exactly the operation it submits. Its sequence
      number is one past the fetched one. */
  lemma SendsAtMostOnce(strkey: Strkey, env: Environment, req: Request,
                        r: Result<(ScVal, string), InvokeError>, trace: seq<Call>, k: nat)
    requires Follows(strkey, env, req, r, trace) && k < |trace| && trace[k].Send?
    ensures forall j | 0 <= j < |trace| && trace[j].Send? :: j == k
    ensures MaySend(strkey, env, req, trace[k].tx) && Clean(env.firstSim) && Clean(UsedSim(env, req))
    ensures k == (if req.extraAuth == [] then 2 else 3) && trace[0] == FetchSequence(req.signer)
    ensures env.sequence.Some? && trace[k].tx.seqNum == NextSequence(env.sequence.value)
    ensures env.sequence.value < 9223372036854775807 ==> trace[k].tx.seqNum == env.sequence.value + 1
    ensures trace[k - 1].Simulate? && trace[k - 1].tx.op == SimulatedOp(req, trace[k].tx)
    ensures trace[k].tx.sorobanData == UsedSim(env, req).transactionData
  {
    assert trace[k] in trace;
    var tx, asked, queries :| SentOnce(strkey, env, req, r, trace, tx, asked, queries);
    SentQueries(strkey, env, req, r, trace, tx, asked, queries);
    OnlySend(trace, tx, asked, queries, k);
    PreludeEndsInSimulation(env, req, tx, asked);
    assert trace[0] == asked[0] && trace[k - 1] == asked[k - 1];
  }

  lemma SentQueries(strkey: Strkey, env: Environment, req: Request, r: Result<(ScVal, string), InvokeError>,
                    trace: seq<Call>, tx: Transaction, asked: seq<Call>, queries: seq<Call>)
    requires SentOnce(strkey, env, req, r, trace, tx, asked, queries)
    ensures forall i | 0 <= i < |queries| :: queries[i].GetTransaction?
    ensures forall c | c in asked :: !c.Send?
  {
  }

  lemma PreludeEndsInSimulation(env: Environment, req: Request, tx: Transaction, asked: seq<Call>)
    requires env.sequence.Some? && Prelude(env, req, tx, asked)
    requires tx.op.functionName == req.functionName && tx.op.args == req.args
    ensures |asked| == (if req.extraAuth == [] then 2 else 3) && asked[0] == FetchSequence(req.signer)
    ensures asked[|asked| - 1].Simulate? && asked[|asked| - 1].tx.op == SimulatedOp(req, tx)
  {
  }

  /** The transaction that is sent, told without the program's own words: whose it is,
      what it calls, its sequence number, its fee, and the simulation it rests on. */
  lemma SentTransaction(strkey: Strkey, env: Environment, req: Request, tx: Transaction)
    requires MaySend(strkey, env, req, tx)
    ensures strkey(req.signer) == Some((AccountID, tx.source))
    ensures ScAddressOf(strkey, req.contractID) == Success(tx.op.contract)
    ensures tx.op.functionName == req.functionName && tx.op.args == req.args
    ensures tx.seqNum == if env.sequence.value < 9223372036854775807 then env.sequence.value + 1
                         else -9223372036854775808
    ensures var sim := if req.extraAuth == [] then env.firstSim else env.secondSim;
      && sim.Simulated? && sim.error == "" && sim.results != [] && tx.sorobanData == sim.transactionData
      && (sim.minResourceFee == NoFee ==> tx.fee == 100)
      && (sim.minResourceFee.Fee? && 0 <= 100 + sim.minResourceFee.amount < TWO_32 ==>
            tx.fee == 100 + sim.minResourceFee.amount)
    ensures env.firstSim.Simulated? && env.firstSim.error == "" && env.firstSim.results != []
  {
  }

  /** Every transaction the node is shown carries the number after the fetched one,
      however the call ends. */
  lemma SequenceFollows(strkey: Strkey, env: Environment, req: Request,
                        r: Result<(ScVal, string), InvokeError>, trace: seq<Call>, k: nat)
    requires Follows(strkey, env, req, r, trace) && k < |trace| && (trace[k].Simulate? || trace[k].Send?)
    ensures env.sequence.Some?
    ensures env.sequence.value < 9223372036854775807 ==> trace[k].tx.seqNum == env.sequence.value + 1
  {
    assert trace[k] in trace;
    if !OnlyAsks(env, req, trace) {
      var tx, asked, queries :| SentOnce(strkey, env, req, r, trace, tx, asked, queries);
      SentQueries(strkey, env, req, r, trace, tx, asked, queries);
      QueriesComeLast(trace, tx, asked, queries, k);
      SentTransaction(strkey, env, req, tx);
      PreludeIsTrials(strkey, env, req, tx, asked);
    }
  }

  lemma PreludeIsTrials(strkey: Strkey, env: Environment, req: Request, tx: Transaction, asked: seq<Call>)
    requires MaySend(strkey, env, req, tx) && Prelude(env, req, tx, asked)
    ensures OnlyAsks(env, req, asked)
  {
  }

  /** Polling goes on exactly as long as the transaction is not found, the time is not up
      and nobody cancelled. */
  lemma PollsUntilSettled(env: Environment, i: nat)
    requires StopsAt(env, i)
    ensures forall j | 0 <= j < i ::
      && env.polls(j).Polled? && env.polls(j).status == TxNotFound
      && env.clock(j) <= env.pollStart + 30000 && !env.cancelled(j)
    ensures env.polls(i).Polled? && env.polls(i).status == TxNotFound ==>
      env.clock(i) > env.pollStart + 30000 || env.cancelled(i)
  {
    forall j | 0 <= j < i
      ensures env.polls(j).Polled? && env.polls(j).status == TxNotFound
      ensures env.clock(j) <= env.pollStart + 30000 && !env.cancelled(j)
    {
      assert !LastQuery(env, j);
    }
  }

  /** What each failure after the send means, and the hash it carries. */
  lemma FailuresAfterSend(strkey: Strkey, env: Environment, req: Request, r: Result<(ScVal, string), InvokeError>,
                          trace: seq<Call>, k: nat, i: nat)
    requires Follows(strkey, env, req, r, trace) && k < |trace| && trace[k].Send?
    requires (env.send.Sent? && env.send.status in {SendPending, SendDuplicate}) ==> StopsAt(env, i)
    ensures r == Failure(InvokeError(AtSend, "")) <==> env.send.SendFailed?
    ensures env.send.Sent? ==>
      var hash, taken := env.send.hash, env.send.status in {SendPending, SendDuplicate};
      var reply := env.polls(i);
      var missing := reply.Polled? && reply.status == TxNotFound;
      && (r == Failure(InvokeError(SendRejected, hash)) <==> env.send.status == SendError)
      && (r == Failure(InvokeError(UnexpectedStatus, hash)) <==> env.send.status == SendOther)
      && (r == Failure(InvokeError(AtPoll, hash)) <==> taken && reply == PollFailed)
      && (r == Failure(InvokeError(PollTimedOut, hash)) <==>
            taken && missing && env.clock(i) > env.pollStart + 30000)
      && (r == Failure(InvokeError(PollCancelled, hash)) <==>
            taken && missing && env.clock(i) <= env.pollStart + 30000)
      && (r == Failure(InvokeError(TransactionFailed, hash)) <==>
            taken && reply.Polled? && reply.status == TxFailed)
      && (r == Failure(InvokeError(NoReturnValue, hash)) <==> taken && reply == Polled(TxSuccess, None))
  {
    assert trace[k] in trace;
    var tx, asked, queries :| SentOnce(strkey, env, req, r, trace, tx, asked, queries);
    if env.send.Sent? && env.send.status in {SendPending, SendDuplicate} {
      StopsOnce(env, i, |queries| - 1);
      WhatIsSettled(env, env.send.hash, i);
    }
  }

  lemma WhatIsSettled(env: Environment, hash: string, i: nat)
    requires StopsAt(env, i)
    ensures var r, reply := Settled(env, hash, i), env.polls(i);
      var missing := reply.Polled? && reply.status == TxNotFound;
      && (r == Failure(InvokeError(AtPoll, hash)) <==> reply == PollFailed)
      && (r == Failure(InvokeError(PollTimedOut, hash)) <==> missing && env.clock(i) > env.pollStart + 30000)
      && (r == Failure(InvokeError(PollCancelled, hash)) <==> missing && env.clock(i) <= env.pollStart + 30000)
      && (r == Failure(InvokeError(TransactionFailed, hash)) <==> reply.Polled? && reply.status == TxFailed)
      && (r == Failure(InvokeError(NoReturnValue, hash)) <==> reply == Polled(TxSuccess, None))
      && (r.Failure? ==> r.error.stage !in {AtSend, SendRejected, UnexpectedStatus})
  {
  }

  /** Success is reported only for a transaction that was sent, accepted and seen to
      have succeeded, with the value it returned on chain; and at most 17 queries are
      made to see it. */
  lemma SuccessIsOnChain(strkey: Strkey, env: Environment, req: Request,
                         r: Result<(ScVal, string), InvokeError>, trace: seq<Call>)
    requires Follows(strkey, env, req, r, trace) && r.Success?
    ensures env.send == Sent(SendPending, r.value.1) || env.send == Sent(SendDuplicate, r.value.1)
    ensures Accepted(env.send) && r.value.1 == env.send.hash
    ensures exists i | 0 <= i < 17 :: StopsAt(env, i) && env.polls(i) == Polled(TxSuccess, Some(r.value.0))
    ensures exists k | 0 <= k < |trace| :: trace[k].Send?
  {
    var tx, asked, queries :| SentOnce(strkey, env, req, r, trace, tx, asked, queries);
    assert trace[|asked|] == Send(tx);
    assert StopsAt(env, |queries| - 1);
  }

  /** And nothing is lost on the way: when a transaction may be sent, is accepted, and
      the query polling stops at finds it successful with a return value, the call
      succeeds. */
  lemma SettledIsReported(strkey: Strkey, env: Environment, req: Request,
                          r: Result<(ScVal, string), InvokeError>, trace: seq<Call>, tx: Transaction, i: nat)
    requires Follows(strkey, env, req, r, trace)
    requires MaySend(strkey, env, req, tx) && Accepted(env.send) && StopsAt(env, i) && SucceededAt(env, i)
    ensures r == Success((env.polls(i).returnValue.value, env.send.hash))
  {
    var sent, asked, queries :| SentOnce(strkey, env, req, r, trace, sent, asked, queries);
    StopsOnce(env, i, |queries| - 1);
    OneTransaction(strkey, env, req, tx, sent);
  }

  lemma StopsOnce(env: Environment, i: nat, j: nat)
    requires StopsAt(env, i) && StopsAt(env, j)
    ensures i == j
  {
  }

  /** The fee is the base fee plus the simulated resource fee when that sum fits in
      32 bits, and only then; otherwise it is that sum without its multiples of 2^32. */
  lemma FeeIsExactInRange(min: int64)
    ensures FeeOf(Fee(min)) == BASE_FEE + min <==> 0 <= BASE_FEE + min < TWO_32
    ensures FeeOf(NoFee) == 100
    ensures (FeeOf(Fee(min)) - (100 + min)) % TWO_32 == 0
  {
  }
}
