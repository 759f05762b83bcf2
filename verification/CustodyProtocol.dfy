/** Any number of Submit calls running at once against one table, interleaved in
    any order, with faults and crashes between their steps. */
module CustodyProtocol {
  import opened Wrappers
  import opened Bytes
  import opened Postgres
  import opened CommitmentsTable
  import opened Custody

  /** Where one call stands. */
  datatype Call =
    | Verifying(sc: SubmittedCommitment, channel: ChannelReader)
    | Inserting(sc: SubmittedCommitment, valid: bool)
    | Reading(sc: SubmittedCommitment)
    | Done(sc: SubmittedCommitment, outcome: Result<Record, SubmitError>)
    | Crashed

  /** A verification that completed: what was checked, with which reader, and the
      verdict. */
  datatype Verification = Verification(
    channel: string, amount: int, signature: Bytes, signerKey: Bytes, reader: ChannelReader, verdict: bool)

  /** The table, every call ever started, and the history of verifications. */
  datatype World = World(table: Table, calls: map<nat, Call>, verified: seq<Verification>)

  datatype Event =
    | Begin(id: nat, channel: ChannelReader, sc: SubmittedCommitment)
    | Verify(id: nat)
    | DoInsert(id: nat, now: int, fault: Fault)
    | DoRead(id: nat, fails: bool)
    | Crash(id: nat)

  const START := World(Table([], 1), map[], [])

  function AfterVerify(ed: Verifier, channel: ChannelReader, sc: SubmittedCommitment): Call
    requires sc.amount.Some?
  {
    match VerifyCommitment(ed, channel, sc.trustedSignerKey, sc.amount, sc.signature)
    case Failure(e) => Done(sc, Failure(VerificationIncomplete(e)))
    case Success(valid) => Inserting(sc, valid)
  }

  function AfterInsert(sc: SubmittedCommitment, reply: InsertReply): Call
    requires sc.amount.Some?
  {
    match reply
    case Inserted(id, verifiedAt, valid) =>
      Done(sc, Success(Record(id, sc.channel, sc.amount.value, sc.signature, sc.trustedSignerKey,
                              verifiedAt, valid, false)))
    case NoRows => Reading(sc)
    case MonotonicViolation => Done(sc, Failure(ErrMonotonicViolation))
    case OtherError => Done(sc, Failure(InsertFailed))
  }

  predicate WellFormed(c: Call) {
    !c.Crashed? && !c.Done? ==> c.sc.amount.Some?
  }

  /** One step. An event that does not fit the call it names changes nothing. */
  function Step(ed: Verifier, w: World, e: Event): World {
    match e
    case Begin(id, channel, sc) =>
      if id in w.calls then w
      else
        var call := if sc.amount.None? then Done(sc, Failure(SubmitNilAmount)) else Verifying(sc, channel);
        w.(calls := w.calls[id := call])
    case Verify(id) =>
      if id !in w.calls || !w.calls[id].Verifying? || !WellFormed(w.calls[id]) then w
      else
        var sc, channel := w.calls[id].sc, w.calls[id].channel;
        var call := AfterVerify(ed, channel, sc);
        if call.Inserting? then
          w.(calls := w.calls[id := call],
             verified := w.verified + [Verification(sc.channel, sc.amount.value, sc.signature,
                                                    sc.trustedSignerKey, channel, call.valid)])
        else w.(calls := w.calls[id := call])
    case DoInsert(id, now, fault) =>
      if id !in w.calls || !w.calls[id].Inserting? || !WellFormed(w.calls[id]) then w
      else
        var sc := w.calls[id].sc;
        var (table, reply) := InsertWithFault(w.table, ValuesOf(sc, w.calls[id].valid), now, fault);
        w.(table := table, calls := w.calls[id := AfterInsert(sc, reply)])
    case DoRead(id, fails) =>
      if id !in w.calls || !w.calls[id].Reading? || !WellFormed(w.calls[id]) then w
      else
        var sc := w.calls[id].sc;
        w.(calls := w.calls[id := Done(sc, ReadBack(w.table, sc, fails))])
    case Crash(id) =>
      if id !in w.calls || w.calls[id].Done? then w
      else w.(calls := w.calls[id := Crashed])
  }

  function Run(ed: Verifier, w: World, events: seq<Event>): World {
    if events == [] then w
    else Step(ed, Run(ed, w, events[..|events| - 1]), events[|events| - 1])
  }

  lemma {:induction false} RunConcat(ed: Verifier, w: World, s: seq<Event>, t: seq<Event>)
    ensures Run(ed, w, s + t) == Run(ed, Run(ed, w, s), t)
  {
    if t == [] {
      assert s + t == s;
    } else {
      var n, all := |t| - 1, s + t;
      assert all[..|all| - 1] == s + t[..n] && all[|all| - 1] == t[n];
      RunConcat(ed, w, s, t[..n]);
    }
  }

  // ----- the invariant -----

  /** A completed verification that stands behind a row or a pending insert: it
      was of this commitment, and its verdict is what ed25519 said of the signature over
      the bytes its reader prepared for this amount. */
  ghost predicate Backed(ed: Verifier, w: World, channel: string, amount: int, signature: Bytes,
                         signerKey: Bytes, valid: bool)
  {
    exists v | v in w.verified ::
      && v.channel == channel && v.amount == amount && v.signature == signature
      && v.signerKey == signerKey && v.verdict == valid
      && v.reader(amount).Some? && valid == ed(signerKey, v.reader(amount).value, signature)
  }

  ghost predicate RowBacked(ed: Verifier, w: World, r: Row) {
    Backed(ed, w, r.channel, r.amount, r.signature, r.signerKey, r.valid)
  }

  /** The row a successful call reports. */
  ghost predicate Matches(r: Row, rec: Record) {
    && r.id == rec.id && r.channel == rec.channel && r.amount == rec.amount
    && r.verifiedAt == rec.verifiedAt && r.valid == rec.valid
    && (!rec.alreadyRecorded ==> r.signature == rec.signature && r.signerKey == rec.signerKey)
  }

  ghost predicate Durable(t: Table, sc: SubmittedCommitment, rec: Record) {
    && sc.channel == rec.channel && sc.amount == Some(rec.amount)
    && exists r | r in t.rows :: Matches(r, rec)
  }

  /** The table holds a higher amount for the commitment's channel. */
  ghost predicate HasHigher(t: Table, sc: SubmittedCommitment) {
    sc.amount.Some? && exists r | r in t.rows :: r.channel == sc.channel && sc.amount.value < r.amount
  }

  ghost predicate CallInv(ed: Verifier, w: World, c: Call) {
    match c
    case Verifying(sc, _) => sc.amount.Some?
    case Inserting(sc, valid) =>
      sc.amount.Some? && sc.amount.value > 0 && |sc.trustedSignerKey| == 32
      && Backed(ed, w, sc.channel, sc.amount.value, sc.signature, sc.trustedSignerKey, valid)
    case Reading(sc) => sc.amount.Some? && Find(w.table.rows, sc.channel, sc.amount.value).Some?
    case Done(sc, outcome) =>
      && (outcome.Success? ==> Durable(w.table, sc, outcome.value))
      && (outcome == Failure(ErrMonotonicViolation) ==> HasHigher(w.table, sc))
    case Crashed => true
  }

  ghost predicate Inv(ed: Verifier, w: World) {
    && TableInv(w.table)
    && (forall r | r in w.table.rows :: RowBacked(ed, w, r))
    && (forall id | id in w.calls :: CallInv(ed, w, w.calls[id]))
  }

  /** What one world keeps of another: no row and no verification is lost. */
  ghost predicate Grew(w: World, w': World) {
    w.table.rows <= w'.table.rows && w.verified <= w'.verified
  }

  lemma GrownKeepsCall(ed: Verifier, w: World, w': World, c: Call)
    requires TableInv(w.table) && TableInv(w'.table) && Grew(w, w') && CallInv(ed, w, c)
    ensures CallInv(ed, w', c)
  {
    match c
    case Reading(sc) =>
      FindFinds(w.table.rows, sc.channel, sc.amount.value);
      FindFinds(w'.table.rows, sc.channel, sc.amount.value);
    case Inserting(sc, valid) =>
      BackedStays(ed, w, w', sc.channel, sc.amount.value, sc.signature, sc.trustedSignerKey, valid);
    case Done(sc, Success(rec)) =>
      var r :| r in w.table.rows && Matches(r, rec);
      assert r in w'.table.rows;
    case Done(sc, Failure(ErrMonotonicViolation)) =>
      var r :| r in w.table.rows && r.channel == sc.channel && sc.amount.value < r.amount;
      assert r in w'.table.rows;
    case _ =>
  }

  lemma BackedStays(ed: Verifier, w: World, w': World, channel: string, amount: int, signature: Bytes,
                    signerKey: Bytes, valid: bool)
    requires w.verified <= w'.verified && Backed(ed, w, channel, amount, signature, signerKey, valid)
    ensures Backed(ed, w', channel, amount, signature, signerKey, valid)
  {
    var v :| v in w.verified && v.channel == channel && v.amount == amount && v.signature == signature
      && v.signerKey == signerKey && v.verdict == valid
      && v.reader(amount).Some? && valid == ed(signerKey, v.reader(amount).value, signature);
    assert v in w'.verified;
  }

  /** A world that grew out of another keeps the invariant if the call that moved
      and the rows that were added meet it. */
  lemma GrownKeepsInv(ed: Verifier, w: World, w': World, moved: nat)
    requires Inv(ed, w) && TableInv(w'.table) && Grew(w, w')
    requires forall i | i in w'.calls && i != moved :: i in w.calls && w'.calls[i] == w.calls[i]
    requires moved in w'.calls ==> CallInv(ed, w', w'.calls[moved])
    requires forall r | r in w'.table.rows && r !in w.table.rows :: RowBacked(ed, w', r)
    ensures Inv(ed, w')
  {
    forall i | i in w'.calls ensures CallInv(ed, w', w'.calls[i]) {
      if i != moved {
        GrownKeepsCall(ed, w, w', w.calls[i]);
      }
    }
    forall r | r in w'.table.rows ensures RowBacked(ed, w', r) {
      if r in w.table.rows {
        assert RowBacked(ed, w, r);
        BackedStays(ed, w, w', r.channel, r.amount, r.signature, r.signerKey, r.valid);
      }
    }
  }

  /** What an insert replies is true of the table it leaves. */
  lemma AfterInsertHolds(ed: Verifier, w: World, t: Table, sc: SubmittedCommitment, valid: bool, now: int, fault: Fault)
    requires TableInv(t) && sc.amount.Some? && sc.amount.value > 0 && |sc.trustedSignerKey| == 32
    requires (w.table, InsertWithFault(t, ValuesOf(sc, valid), now, fault).1)
      == InsertWithFault(t, ValuesOf(sc, valid), now, fault)
    ensures CallInv(ed, w, AfterInsert(sc, InsertWithFault(t, ValuesOf(sc, valid), now, fault).1))
  {
    var v := ValuesOf(sc, valid);
    InsertReplies(t, v, now);
    CurrentMaxIsMax(t.rows, v.channel);
    FindFinds(t.rows, v.channel, v.amount);
    var reply := InsertWithFault(t, v, now, fault).1;
    if reply.Inserted? {
      assert w.table.rows[|t.rows|] in w.table.rows;
    }
  }

  lemma InsertStepKeepsInv(ed: Verifier, w: World, id: nat, now: int, fault: Fault)
    requires Inv(ed, w) && id in w.calls && w.calls[id].Inserting?
    ensures var w' := Step(ed, w, DoInsert(id, now, fault)); Inv(ed, w') && Grew(w, w')
  {
    var sc, valid := w.calls[id].sc, w.calls[id].valid;
    assert CallInv(ed, w, w.calls[id]);
    var w' := Step(ed, w, DoInsert(id, now, fault));
    InsertKeepsTable(w.table, ValuesOf(sc, valid), now);
    AfterInsertHolds(ed, w', w.table, sc, valid, now, fault);
    NewRowIsBacked(ed, w, w', ValuesOf(sc, valid), now, fault);
    GrownKeepsInv(ed, w, w', id);
  }

  lemma NewRowIsBacked(ed: Verifier, w: World, w': World, v: Values, now: int, fault: Fault)
    requires TableInv(w.table) && Backed(ed, w, v.channel, v.amount, v.signature, v.signerKey, v.valid)
    requires w'.verified == w.verified && w'.table == InsertWithFault(w.table, v, now, fault).0
    ensures forall r | r in w'.table.rows && r !in w.table.rows :: RowBacked(ed, w', r)
  {
    InsertReplies(w.table, v, now);
  }

  lemma VerifyStepKeepsInv(ed: Verifier, w: World, id: nat)
    requires Inv(ed, w) && id in w.calls && w.calls[id].Verifying?
    ensures var w' := Step(ed, w, Verify(id)); Inv(ed, w') && Grew(w, w')
  {
    assert CallInv(ed, w, w.calls[id]);
    var w' := Step(ed, w, Verify(id));
    if w'.calls[id].Inserting? {
      assert w'.verified[|w.verified|] in w'.verified;
    }
    GrownKeepsInv(ed, w, w', id);
  }

  lemma ReadStepKeepsInv(ed: Verifier, w: World, id: nat, fails: bool)
    requires Inv(ed, w) && id in w.calls && w.calls[id].Reading?
    ensures var w' := Step(ed, w, DoRead(id, fails)); Inv(ed, w') && Grew(w, w')
  {
    assert CallInv(ed, w, w.calls[id]);
    ReadBackHolds(w.table, w.calls[id].sc, fails);
    GrownKeepsInv(ed, w, Step(ed, w, DoRead(id, fails)), id);
  }

  /** What a read-back returns is a row of the table; without a fault it finds one. */
  lemma ReadBackHolds(t: Table, sc: SubmittedCommitment, fails: bool)
    requires sc.amount.Some? && Find(t.rows, sc.channel, sc.amount.value).Some?
    ensures ReadBack(t, sc, fails).Success? <==> !fails
    ensures !fails ==> Durable(t, sc, ReadBack(t, sc, fails).value)
  {
    FindFinds(t.rows, sc.channel, sc.amount.value);
    if !fails {
      assert Matches(Find(t.rows, sc.channel, sc.amount.value).value, ReadBack(t, sc, fails).value);
    }
  }

  lemma StepKeepsInv(ed: Verifier, w: World, e: Event)
    requires Inv(ed, w)
    ensures Inv(ed, Step(ed, w, e)) && Grew(w, Step(ed, w, e))
  {
    match e
    case DoInsert(id, now, fault) =>
      if id in w.calls && w.calls[id].Inserting? {
        InsertStepKeepsInv(ed, w, id, now, fault);
      }
    case Verify(id) =>
      if id in w.calls && w.calls[id].Verifying? {
        VerifyStepKeepsInv(ed, w, id);
      }
    case DoRead(id, fails) =>
      if id in w.calls && w.calls[id].Reading? {
        ReadStepKeepsInv(ed, w, id, fails);
      }
    case Begin(id, _, _) => GrownKeepsInv(ed, w, Step(ed, w, e), id);
    case Crash(id) => GrownKeepsInv(ed, w, Step(ed, w, e), id);
  }

  lemma {:induction false} RunKeepsInv(ed: Verifier, w: World, events: seq<Event>)
    requires Inv(ed, w)
    ensures Inv(ed, Run(ed, w, events)) && Grew(w, Run(ed, w, events))
  {
    if events != [] {
      var n := |events| - 1;
      RunKeepsInv(ed, w, events[..n]);
      StepKeepsInv(ed, Run(ed, w, events[..n]), events[n]);
    }
  }

  // ----- what holds after every run -----

  /** Custody over every interleaving: after any run from an empty table, amounts
      rise strictly within each channel in insertion order. */
  lemma RowsRise(ed: Verifier, events: seq<Event>, i: nat, j: nat)
    requires i < j < |Run(ed, START, events).table.rows|
    requires Run(ed, START, events).table.rows[i].channel == Run(ed, START, events).table.rows[j].channel
    ensures Run(ed, START, events).table.rows[i].amount < Run(ed, START, events).table.rows[j].amount
  {
    RunKeepsInv(ed, START, events);
  }

  /** The last row of a channel holds its maximum. */
  lemma LatestRowIsMaximum(ed: Verifier, events: seq<Event>, i: nat)
    requires i < |Run(ed, START, events).table.rows|
    requires var rows := Run(ed, START, events).table.rows;
      forall j | i < j < |rows| :: rows[j].channel != rows[i].channel
    ensures var rows := Run(ed, START, events).table.rows;
      CurrentMax(rows, rows[i].channel) == Some(rows[i].amount)
  {
    RunKeepsInv(ed, START, events);
    LatestIsMax(Run(ed, START, events).table, i);
  }

  /** However a run goes on, the rows it has stay where they are, unchanged. */
  lemma RowsAreKept(ed: Verifier, past: seq<Event>, future: seq<Event>)
    ensures Run(ed, START, past).table.rows <= Run(ed, START, past + future).table.rows
  {
    RunConcat(ed, START, past, future);
    RunKeepsInv(ed, START, past);
    RunKeepsInv(ed, Run(ed, START, past), future);
  }

  /** A step touches at most the rows of the channel its own call is about. */
  lemma OtherChannelsUntouched(ed: Verifier, w: World, e: Event, channel: string)
    requires e.id in w.calls && !w.calls[e.id].Crashed? ==> w.calls[e.id].sc.channel != channel
    ensures OnChannel(Step(ed, w, e).table.rows, channel) == OnChannel(w.table.rows, channel)
  {
    match e
    case DoInsert(id, now, fault) =>
      if id in w.calls && w.calls[id].Inserting? && WellFormed(w.calls[id]) {
        InsertKeepsOtherChannels(w.table, ValuesOf(w.calls[id].sc, w.calls[id].valid), now, channel);
      }
    case _ =>
  }

  /** Persist before acknowledging: whenever a call has returned success, the table
      holds the row it reported. Verify before storing: every row has a completed
      verification of that commitment behind it, whose verdict is the row's, so a
      row marked valid carries a signature that verified under its key over the bytes
      prepared for its amount. A call that is about to read a row back will find it. */
  lemma CustodyHolds(ed: Verifier, events: seq<Event>)
    ensures var w := Run(ed, START, events);
      && (forall id | id in w.calls && w.calls[id].Done? && w.calls[id].outcome.Success? ::
            Durable(w.table, w.calls[id].sc, w.calls[id].outcome.value))
      && (forall r | r in w.table.rows :: RowBacked(ed, w, r))
      && (forall id | id in w.calls && w.calls[id].Reading? ::
            var c := Step(ed, w, DoRead(id, false)).calls[id]; c.Done? && c.outcome.Success?)
  {
    var w := Run(ed, START, events);
    RunKeepsInv(ed, START, events);
    forall id | id in w.calls && w.calls[id].Reading?
      ensures var c := Step(ed, w, DoRead(id, false)).calls[id]; c.Done? && c.outcome.Success?
    {
      assert CallInv(ed, w, w.calls[id]);
      ReadBackHolds(w.table, w.calls[id].sc, false);
    }
    forall id | id in w.calls && w.calls[id].Done? ensures CallInv(ed, w, w.calls[id]) {
    }
  }

  /** A commitment is only called stale when it is: whenever a call has ended in the
      monotonic error, the table holds a higher amount for its channel. */
  lemma StaleMeansHigher(ed: Verifier, events: seq<Event>, id: nat)
    requires var w := Run(ed, START, events);
      id in w.calls && w.calls[id].Done? && w.calls[id].outcome == Failure(ErrMonotonicViolation)
    ensures var w := Run(ed, START, events);
      var sc := w.calls[id].sc;
      sc.amount.Some? && exists r | r in w.table.rows :: r.channel == sc.channel && sc.amount.value < r.amount
  {
    RunKeepsInv(ed, START, events);
    assert CallInv(ed, Run(ed, START, events), Run(ed, START, events).calls[id]);
  }

  /** The reader answers for this channel, where it answers at all. */
  ghost predicate ReaderOf(prepare: (string, int) -> Bytes, channel: string, reader: ChannelReader) {
    forall amount :: reader(amount).Some? ==> reader(amount).value == prepare(channel, amount)
  }

  ghost predicate ReadersMatch(prepare: (string, int) -> Bytes, w: World) {
    && (forall id | id in w.calls && w.calls[id].Verifying? ::
          ReaderOf(prepare, w.calls[id].sc.channel, w.calls[id].channel))
    && (forall v | v in w.verified :: ReaderOf(prepare, v.channel, v.reader))
  }

  lemma {:induction false} ReadersStayMatched(ed: Verifier, prepare: (string, int) -> Bytes, events: seq<Event>)
    requires forall e | e in events && e.Begin? :: ReaderOf(prepare, e.sc.channel, e.channel)
    ensures ReadersMatch(prepare, Run(ed, START, events))
  {
    if events != [] {
      var n := |events| - 1;
      ReadersStayMatched(ed, prepare, events[..n]);
      assert events[n] in events;
    }
  }

  /** Submit is handed the reader and the channel's name separately. When callers pass a
      channel's own reader with its name, then after any run a row is marked valid
      exactly when its signature verifies, under its key, over the bytes its own channel
      prepares for its own amount. */
  lemma ValidMeansSigned(ed: Verifier, prepare: (string, int) -> Bytes, events: seq<Event>)
    requires forall e | e in events && e.Begin? :: ReaderOf(prepare, e.sc.channel, e.channel)
    ensures forall r | r in Run(ed, START, events).table.rows ::
      r.valid <==> ed(r.signerKey, prepare(r.channel, r.amount), r.signature)
  {
    var w := Run(ed, START, events);
    RunKeepsInv(ed, START, events);
    ReadersStayMatched(ed, prepare, events);
    forall r | r in w.table.rows ensures r.valid <==> ed(r.signerKey, prepare(r.channel, r.amount), r.signature) {
      assert RowBacked(ed, w, r);
    }
  }

  /** The uninterrupted Submit is the run of its four steps. */
  lemma SubmitIsRun(ed: Verifier, w: World, id: nat, channel: ChannelReader, sc: SubmittedCommitment,
                    now: int, fault: Fault, readFails: bool)
    requires id !in w.calls
    ensures var w' := Run(ed, w, [Begin(id, channel, sc), Verify(id), DoInsert(id, now, fault), DoRead(id, readFails)]);
      var (t, r) := SubmitAlone(ed, w.table, channel, sc, now, fault, readFails);
      w'.table == t && id in w'.calls && w'.calls[id] == Done(sc, r)
  {
    var events := [Begin(id, channel, sc), Verify(id), DoInsert(id, now, fault), DoRead(id, readFails)];
    var w1 := Step(ed, w, events[0]);
    var w2 := Step(ed, w1, events[1]);
    var w3 := Step(ed, w2, events[2]);
    assert Run(ed, w, events[..0]) == w;
    assert events[..1][..0] == events[..0] && events[..2][..1] == events[..1];
    assert events[..3][..2] == events[..2];
    assert Run(ed, w, events[..1]) == w1;
    assert Run(ed, w, events[..2]) == w2;
    assert Run(ed, w, events[..3]) == w3;
  }

  /** A crash can come between any two steps. It changes no row, and the call it hits is
      gone: whatever happens later, it is never acknowledged. */
  lemma CrashEndsCall(ed: Verifier, w: World, id: nat, later: seq<Event>)
    requires id in w.calls && !w.calls[id].Done?
    ensures Step(ed, w, Crash(id)).table == w.table && Step(ed, w, Crash(id)).verified == w.verified
    ensures var w' := Run(ed, Step(ed, w, Crash(id)), later); id in w'.calls && w'.calls[id].Crashed?
  {
    CrashedStays(ed, Step(ed, w, Crash(id)), id, later);
  }

  lemma {:induction false} CrashedStays(ed: Verifier, w: World, id: nat, later: seq<Event>)
    requires id in w.calls && w.calls[id].Crashed?
    ensures var w' := Run(ed, w, later); id in w'.calls && w'.calls[id].Crashed?
  {
    if later != [] {
      CrashedStays(ed, w, id, later[..|later| - 1]);
    }
  }

  // ----- retries -----

  ghost predicate Untouched(events: seq<Event>, id: nat) {
    forall e | e in events :: e.id != id
  }

  lemma {:induction false} CallWaits(ed: Verifier, w: World, events: seq<Event>, id: nat)
    requires id in w.calls && Untouched(events, id)
    ensures id in Run(ed, w, events).calls && Run(ed, w, events).calls[id] == w.calls[id]
  {
    if events != [] {
      var n := |events| - 1;
      assert events[n] in events;
      CallWaits(ed, w, events[..n], id);
    }
  }

  /** The insert step of a retry, at whatever moment it comes: it never changes the
      table's rows. It goes on to the read-back if the amount is still the channel's
      maximum, and is refused as a regression otherwise. */
  lemma RetryInsert(ed: Verifier, w: World, id: nat, now: int, r: Row)
    requires Inv(ed, w) && id in w.calls && w.calls[id].Inserting? && r in w.table.rows
    requires w.calls[id].sc.channel == r.channel && w.calls[id].sc.amount == Some(r.amount)
    ensures var w' := Step(ed, w, DoInsert(id, now, NoFault));
      && w'.table.rows == w.table.rows
      && w'.calls[id] == if CurrentMax(w.table.rows, r.channel) == Some(r.amount)
                         then Reading(w.calls[id].sc)
                         else Done(w.calls[id].sc, Failure(ErrMonotonicViolation))
  {
    assert CallInv(ed, w, w.calls[id]);
    InsertReplies(w.table, ValuesOf(w.calls[id].sc, w.calls[id].valid), now);
    CurrentMaxIsMax(w.table.rows, r.channel);
    FindIsTheRow(w.table, r);
  }

  /** What a retry returns: the row it reports is the one first recorded. */
  function RetryOutcome(sc: SubmittedCommitment, first: Record, isMax: bool): Result<Record, SubmitError>
    requires sc.amount.Some?
  {
    if isMax then
      Success(Record(first.id, sc.channel, sc.amount.value, sc.signature, sc.trustedSignerKey,
                     first.verifiedAt, first.valid, true))
    else Failure(ErrMonotonicViolation)
  }

  /** The retry law. A call has succeeded for a channel and an amount; another call
      submits the same pair, with any other calls' steps in between and no fault of
      its own. Its insert and its read-back leave the rows alone, and it returns the
      first call's id and verdict, marked as already recorded, exactly when the amount
      is the channel's maximum at the moment of its insert; otherwise it fails. */
  lemma RetryLaw(ed: Verifier, past: seq<Event>, first: nat, retry: nat, channel: ChannelReader,
                 sc: SubmittedCommitment, now: int, gap1: seq<Event>, gap2: seq<Event>, gap3: seq<Event>)
    requires var w0 := Run(ed, START, past);
      && first in w0.calls && w0.calls[first].Done? && w0.calls[first].outcome.Success?
      && retry !in w0.calls
      && sc.channel == w0.calls[first].outcome.value.channel
      && sc.amount == Some(w0.calls[first].outcome.value.amount) && |sc.trustedSignerKey| == 32
      && channel(sc.amount.value).Some?
    requires Untouched(gap1, retry) && Untouched(gap2, retry) && Untouched(gap3, retry)
    ensures var w0 := Run(ed, START, past);
      var rec := w0.calls[first].outcome.value;
      var w1 := Run(ed, Step(ed, w0, Begin(retry, channel, sc)), gap1);
      var w2 := Run(ed, Step(ed, w1, Verify(retry)), gap2);
      var w3 := Step(ed, w2, DoInsert(retry, now, NoFault));
      var w4 := Run(ed, w3, gap3);
      var w5 := Step(ed, w4, DoRead(retry, false));
      && w3.table.rows == w2.table.rows && w5.table.rows == w4.table.rows
      && retry in w5.calls
      && w5.calls[retry] == Done(sc, RetryOutcome(sc, rec, CurrentMax(w2.table.rows, sc.channel) == sc.amount))
  {
    var w0 := Run(ed, START, past);
    RunKeepsInv(ed, START, past);
    var rec := w0.calls[first].outcome.value;
    assert CallInv(ed, w0, w0.calls[first]);
    var r :| r in w0.table.rows && Matches(r, rec);
    StepKeepsInv(ed, w0, Begin(retry, channel, sc));
    assert TableInv(w0.table);
    var w2 := RetryReachesInsert(ed, Step(ed, w0, Begin(retry, channel, sc)), retry, channel, sc, gap1, gap2);
    RetryFinishes(ed, w2, retry, sc, now, gap3, r, rec);
  }

  lemma RetryFinishes(ed: Verifier, w2: World, retry: nat, sc: SubmittedCommitment, now: int, gap3: seq<Event>,
                      r: Row, rec: Record)
    requires Inv(ed, w2) && retry in w2.calls && w2.calls[retry].Inserting? && w2.calls[retry].sc == sc
    requires r in w2.table.rows && Matches(r, rec) && sc.channel == rec.channel && sc.amount == Some(rec.amount)
    requires Untouched(gap3, retry)
    ensures var w3 := Step(ed, w2, DoInsert(retry, now, NoFault));
      var w4 := Run(ed, w3, gap3);
      var w5 := Step(ed, w4, DoRead(retry, false));
      && w3.table.rows == w2.table.rows && w5.table.rows == w4.table.rows
      && retry in w5.calls
      && w5.calls[retry] == Done(sc, RetryOutcome(sc, rec, CurrentMax(w2.table.rows, sc.channel) == sc.amount))
  {
    RetryInsert(ed, w2, retry, now, r);
    var w4 := RetryWaits(ed, w2, retry, now, gap3, r);
    RetryReads(ed, w4, retry, r);
  }

  /** Between its insert and its read-back a retry keeps its place, and the table the row. */
  lemma RetryWaits(ed: Verifier, w2: World, retry: nat, now: int, gap3: seq<Event>, r: Row) returns (w4: World)
    requires Inv(ed, w2) && retry in w2.calls && w2.calls[retry].Inserting? && r in w2.table.rows
    requires Untouched(gap3, retry)
    ensures w4 == Run(ed, Step(ed, w2, DoInsert(retry, now, NoFault)), gap3) && Inv(ed, w4) && r in w4.table.rows
    ensures retry in w4.calls && w4.calls[retry] == Step(ed, w2, DoInsert(retry, now, NoFault)).calls[retry]
  {
    var w3 := Step(ed, w2, DoInsert(retry, now, NoFault));
    StepKeepsInv(ed, w2, DoInsert(retry, now, NoFault));
    RunKeepsInv(ed, w3, gap3);
    CallWaits(ed, w3, gap3, retry);
    w4 := Run(ed, w3, gap3);
  }

  /** The read-back step of a retry returns the row first recorded. */
  lemma RetryReads(ed: Verifier, w: World, id: nat, r: Row)
    requires Inv(ed, w) && id in w.calls && r in w.table.rows
    ensures var w' := Step(ed, w, DoRead(id, false));
      && w'.table.rows == w.table.rows && id in w'.calls
      && (w.calls[id].Done? ==> w'.calls[id] == w.calls[id])
      && (w.calls[id].Reading? && w.calls[id].sc.channel == r.channel && w.calls[id].sc.amount == Some(r.amount) ==>
            var sc := w.calls[id].sc;
            w'.calls[id] == Done(sc, Success(Record(r.id, r.channel, r.amount, sc.signature, sc.trustedSignerKey,
                                                    r.verifiedAt, r.valid, true))))
  {
    FindIsTheRow(w.table, r);
  }

  lemma RetryReachesInsert(ed: Verifier, b: World, retry: nat, channel: ChannelReader, sc: SubmittedCommitment,
                           gap1: seq<Event>, gap2: seq<Event>) returns (w2: World)
    requires Inv(ed, b) && retry in b.calls && b.calls[retry] == Verifying(sc, channel)
    requires sc.amount.Some? && sc.amount.value > 0 && |sc.trustedSignerKey| == 32 && channel(sc.amount.value).Some?
    requires Untouched(gap1, retry) && Untouched(gap2, retry)
    ensures w2 == Run(ed, Step(ed, Run(ed, b, gap1), Verify(retry)), gap2)
    ensures Inv(ed, w2) && Grew(b, w2)
    ensures retry in w2.calls && w2.calls[retry].Inserting? && w2.calls[retry].sc == sc
  {
    var w1 := Run(ed, b, gap1);
    RunKeepsInv(ed, b, gap1);
    CallWaits(ed, b, gap1, retry);
    var v := RetryVerifies(ed, w1, retry, channel, sc);
    RunKeepsInv(ed, v, gap2);
    CallWaits(ed, v, gap2, retry);
    w2 := Run(ed, v, gap2);
  }

  lemma RetryVerifies(ed: Verifier, w: World, id: nat, channel: ChannelReader, sc: SubmittedCommitment)
    returns (v: World)
    requires Inv(ed, w) && id in w.calls && w.calls[id] == Verifying(sc, channel)
    requires sc.amount.Some? && sc.amount.value > 0 && |sc.trustedSignerKey| == 32 && channel(sc.amount.value).Some?
    ensures v == Step(ed, w, Verify(id)) && Inv(ed, v) && Grew(w, v)
    ensures id in v.calls && v.calls[id].Inserting? && v.calls[id].sc == sc
  {
    v := Step(ed, w, Verify(id));
    VerifyStepKeepsInv(ed, w, id);
  }

  /** A Submit above everything its channel holds is recorded whatever its verdict:
      a commitment that fails verification is stored too, marked invalid. */
  lemma FreshSubmit(ed: Verifier, t: Table, channel: ChannelReader, sc: SubmittedCommitment, now: int)
    requires sc.amount.Some? && 0 < sc.amount.value < NUMERIC_LIMIT && |sc.trustedSignerKey| == 32
    requires channel(sc.amount.value).Some?
    requires forall r | r in t.rows && r.channel == sc.channel :: r.amount < sc.amount.value
    ensures var (t', r) := SubmitAlone(ed, t, channel, sc, now, NoFault, false);
      && r.Success? && !r.value.alreadyRecorded
      && |t'.rows| == |t.rows| + 1 && t.rows <= t'.rows
      && t'.rows[|t.rows|] == Row(t.nextId, sc.channel, sc.amount.value, sc.signature, sc.trustedSignerKey, now,
                                  ed(sc.trustedSignerKey, channel(sc.amount.value).value, sc.signature))
  {
    CurrentMaxIsMax(t.rows, sc.channel);
    FindFinds(t.rows, sc.channel, sc.amount.value);
  }

  /** A verification that does not complete stores nothing, and nothing else keeps a
      verification from completing. */
  lemma IncompleteStoresNothing(ed: Verifier, t: Table, channel: ChannelReader, sc: SubmittedCommitment,
                                now: int, fault: Fault, readFails: bool)
    ensures var (t', r) := SubmitAlone(ed, t, channel, sc, now, fault, readFails);
      && (r.Failure? && (r.error.SubmitNilAmount? || r.error.VerificationIncomplete?) <==>
            sc.amount.None? || sc.amount.value <= 0 || |sc.trustedSignerKey| != 32
            || channel(sc.amount.value).None?)
      && (r.Failure? && (r.error.SubmitNilAmount? || r.error.VerificationIncomplete?) ==> t' == t)
  {
  }

  /** Why a verification does not complete: the first thing that is wrong. */
  lemma VerificationErrors(ed: Verifier, channel: ChannelReader, key: Bytes, amount: Option<int>, signature: Bytes)
    ensures var r := VerifyCommitment(ed, channel, key, amount, signature);
      && (r == Failure(NilAmount) <==> amount.None?)
      && (r == Failure(NonPositiveAmount) <==> amount.Some? && amount.value <= 0)
      && (r == Failure(InvalidSignerKey) <==> amount.Some? && amount.value > 0 && |key| != 32)
      && (r == Failure(PrepareFailed) <==>
            amount.Some? && amount.value > 0 && |key| == 32 && channel(amount.value).None?)
  {
  }

  /** A verification that completes: the commitment goes to the table. */
  ghost predicate Completes(channel: ChannelReader, sc: SubmittedCommitment) {
    sc.amount.Some? && sc.amount.value > 0 && |sc.trustedSignerKey| == 32 && channel(sc.amount.value).Some?
  }

  ghost predicate HasEqual(t: Table, sc: SubmittedCommitment) {
    sc.amount.Some? && exists r | r in t.rows :: r.channel == sc.channel && r.amount == sc.amount.value
  }

  /** What each error of a Submit means. The monotonic error is returned exactly for an
      amount below one its channel holds, and only when the database answered; a fault,
      or an amount too wide for its column, is the plain insert error. */
  lemma SubmitErrors(ed: Verifier, t: Table, channel: ChannelReader, sc: SubmittedCommitment, now: int, fault: Fault,
                     readFails: bool)
    ensures var r := SubmitAlone(ed, t, channel, sc, now, fault, readFails).1;
      var fits := sc.amount.Some? && sc.amount.value < NUMERIC_LIMIT;
      && (r == Failure(SubmitNilAmount) <==> sc.amount.None?)
      && ((r.Failure? && r.error.VerificationIncomplete?) <==> sc.amount.Some? && !Completes(channel, sc))
      && (r.Failure? && r.error.VerificationIncomplete? ==>
            VerifyCommitment(ed, channel, sc.trustedSignerKey, sc.amount, sc.signature) == Failure(r.error.cause))
      && (r == Failure(ErrMonotonicViolation) <==>
            Completes(channel, sc) && fault == NoFault && fits && HasHigher(t, sc))
      && (r == Failure(InsertFailed) <==> Completes(channel, sc) && (fault != NoFault || !fits))
      && (r == Failure(ReadBackFailed) <==>
            Completes(channel, sc) && fault == NoFault && fits && !HasHigher(t, sc) && HasEqual(t, sc) && readFails)
      && (r.Success? <==>
            Completes(channel, sc) && fault == NoFault && fits && !HasHigher(t, sc) && (HasEqual(t, sc) ==> !readFails))
      && (r.Success? ==> (r.value.alreadyRecorded <==> HasEqual(t, sc)))
  {
    if sc.amount.Some? {
      CurrentMaxIsMax(t.rows, sc.channel);
      FindFinds(t.rows, sc.channel, sc.amount.value);
    }
  }

  /** A reply that is lost changes what the caller learns and not what is stored; a
      statement that fails beforehand stores nothing. */
  lemma FaultsAndTheTable(ed: Verifier, t: Table, channel: ChannelReader, sc: SubmittedCommitment, now: int,
                          readFails: bool)
    ensures SubmitAlone(ed, t, channel, sc, now, LostReply, readFails).0 ==
      SubmitAlone(ed, t, channel, sc, now, NoFault, readFails).0
    ensures SubmitAlone(ed, t, channel, sc, now, FailsBefore, readFails).0 == t
  {
  }

  /** A Submit below something its channel holds is refused. */
  lemma StaleSubmit(ed: Verifier, t: Table, channel: ChannelReader, sc: SubmittedCommitment, now: int)
    requires sc.amount.Some? && 0 < sc.amount.value < NUMERIC_LIMIT && |sc.trustedSignerKey| == 32
    requires channel(sc.amount.value).Some?
    requires exists r | r in t.rows :: r.channel == sc.channel && sc.amount.value < r.amount
    ensures SubmitAlone(ed, t, channel, sc, now, NoFault, false).1 == Failure(ErrMonotonicViolation)
  {
    CurrentMaxIsMax(t.rows, sc.channel);
  }

  /** A retry is not always a read of the existing row: after 5 and then 10, a retry
      of 5 fails, although 5 was recorded and acknowledged. */
  lemma RetryCanFail(ed: Verifier, channel: ChannelReader, sc5: SubmittedCommitment, sc10: SubmittedCommitment)
    requires sc5.channel == sc10.channel && sc5.amount == Some(5) && sc10.amount == Some(10)
    requires |sc5.trustedSignerKey| == |sc10.trustedSignerKey| == 32
    requires channel(5).Some? && channel(10).Some?
    ensures var t0 := Table([], 1);
      var (t1, r1) := SubmitAlone(ed, t0, channel, sc5, 0, NoFault, false);
      var (t2, r2) := SubmitAlone(ed, t1, channel, sc10, 1, NoFault, false);
      var (t3, r3) := SubmitAlone(ed, t2, channel, sc5, 2, NoFault, false);
      r1.Success? && r2.Success? && r3 == Failure(ErrMonotonicViolation)
  {
    var t0 := Table([], 1);
    FreshSubmit(ed, t0, channel, sc5, 0);
    var t1 := SubmitAlone(ed, t0, channel, sc5, 0, NoFault, false).0;
    FreshSubmit(ed, t1, channel, sc10, 1);
    var t2 := SubmitAlone(ed, t1, channel, sc10, 1, NoFault, false).0;
    assert t2.rows[1] in t2.rows;
    StaleSubmit(ed, t2, channel, sc5, 2);
  }
}
