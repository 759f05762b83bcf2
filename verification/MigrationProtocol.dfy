/** Any number of starters running Migrate at once on one database, over the same
    sorted list, with failures and crashes at any statement. */
module MigrationProtocol {
  import opened Wrappers
  import opened Postgres
  import opened MigrationFiles
  import opened Migrations

  /** Where one starter stands: `applied` is the set of versions it read, `next` the
      migration it is at. A transaction that has inserted its bookkeeping row holds
      that key until it ends. */
  datatype Starter =
    | Launched
    | AtLoop(applied: set<nat>, next: nat)
    | InTransaction(applied: set<nat>, next: nat)
    | SqlDone(applied: set<nat>, next: nat)
    | RowInserted(applied: set<nat>, next: nat)
    | Finished(completed: bool)

  datatype World = World(log: seq<Migration>, starters: map<nat, Starter>)

  datatype Event =
    | Launch(id: nat)
    | ReadApplied(id: nat, fails: bool)
    | Advance(id: nat, beginFails: bool)
    | ExecSql(id: nat, fails: bool)
    | InsertRow(id: nat, fails: bool)
    | Commit(id: nat, fault: TxFault)
    | Crash(id: nat)

  predicate Holds(s: Starter, ms: seq<Migration>, version: nat) {
    s.RowInserted? && s.next < |ms| && ms[s.next].version == version
  }

  /** Another transaction's uncommitted bookkeeping row makes an insert of the same
      key wait. */
  predicate Blocked(w: World, ms: seq<Migration>, id: nat, version: nat) {
    exists other | other in w.starters :: other != id && Holds(w.starters[other], ms, version)
  }

  function StepOf(ms: seq<Migration>, w: World, s: Starter, e: Event): (seq<Migration>, Starter)
    requires s.AtLoop? || s.InTransaction? || s.SqlDone? || s.RowInserted? ==> s.next <= |ms|
  {
    match (e, s)
    case (ReadApplied(_, fails), Launched) =>
      (w.log, if fails then Finished(false) else AtLoop(Versions(w.log), 0))
    case (Advance(_, beginFails), AtLoop(applied, next)) =>
      (w.log, if next == |ms| then Finished(true)
              else if ms[next].version in applied then AtLoop(applied, next + 1)
              else if beginFails then Finished(false) else InTransaction(applied, next))
    case (ExecSql(_, fails), InTransaction(applied, next)) =>
      (w.log, if fails then Finished(false) else SqlDone(applied, next))
    case (InsertRow(id, fails), SqlDone(applied, next)) =>
      if next == |ms| || Blocked(w, ms, id, ms[next].version) then (w.log, s)
      else (w.log, if fails || !CanRecord(w.log, ms[next]) then Finished(false) else RowInserted(applied, next))
    case (Commit(_, fault), RowInserted(applied, next)) =>
      if next == |ms| || (!fault.Fine? && !fault.CommitReplyLost?) then (w.log, Finished(false))
      else (w.log + [ms[next]], if fault.Fine? then AtLoop(applied, next + 1) else Finished(false))
    case (Crash(_), _) => (w.log, Finished(false))
    case _ => (w.log, s)
  }

  /** One step. An event that does not fit the starter it names changes nothing. */
  function Step(ms: seq<Migration>, w: World, e: Event): World {
    if e.Launch? then
      if e.id in w.starters then w else w.(starters := w.starters[e.id := Launched])
    else if e.id !in w.starters || w.starters[e.id].Finished? || !InList(ms, w.starters[e.id]) then w
    else
      var (log, s) := StepOf(ms, w, w.starters[e.id], e);
      World(log, w.starters[e.id := s])
  }

  predicate InList(ms: seq<Migration>, s: Starter) {
    s.AtLoop? || s.InTransaction? || s.SqlDone? || s.RowInserted? ==> s.next <= |ms|
  }

  function Run(ms: seq<Migration>, w: World, events: seq<Event>): World
    decreases |events|
  {
    if events == [] then w else Run(ms, Step(ms, w, events[0]), events[1..])
  }

  // ----- the invariant -----

  /** A starter at a migration has everything before it committed; one that holds
      the key of its row is at exactly the first migration not yet committed. */
  ghost predicate StarterInv(ms: seq<Migration>, log: seq<Migration>, s: Starter) {
    match s
    case Launched => true
    case AtLoop(applied, next) => next <= |log| && applied <= Versions(log)
    case InTransaction(applied, next) => next <= |log| && next < |ms| && applied <= Versions(log)
    case SqlDone(applied, next) => next <= |log| && next < |ms| && applied <= Versions(log)
    case RowInserted(applied, next) => next == |log| && next < |ms| && applied <= Versions(log)
    case Finished(completed) => completed ==> log == ms
  }

  ghost predicate Inv(ms: seq<Migration>, w: World) {
    && |w.log| <= |ms| && w.log == ms[..|w.log|]
    && (forall id | id in w.starters :: StarterInv(ms, w.log, w.starters[id]))
    && (forall a, b | a in w.starters && b in w.starters && a != b ::
          !(w.starters[a].RowInserted? && w.starters[b].RowInserted?))
  }

  lemma NextIsFirstMissing(ms: seq<Migration>, log: seq<Migration>, next: nat)
    requires Listed(ms) && |log| <= |ms| && log == ms[..|log|] && next < |ms|
    ensures ms[next].version in Versions(log) <==> next < |log|
  {
    VersionsOfPrefix(ms, |log|, next);
  }

  lemma StepOfKeepsInv(ms: seq<Migration>, w: World, e: Event)
    requires Listed(ms) && Inv(ms, w) && !e.Launch? && e.id in w.starters && !w.starters[e.id].Finished?
    requires InList(ms, w.starters[e.id])
    ensures var (log, s) := StepOf(ms, w, w.starters[e.id], e);
      && |log| <= |ms| && log == ms[..|log|] && w.log <= log && StarterInv(ms, log, s)
      && (log != w.log ==> w.starters[e.id].RowInserted?)
      && (s.RowInserted? ==> forall other | other in w.starters && other != e.id :: !w.starters[other].RowInserted?)
  {
    var s := w.starters[e.id];
    assert StarterInv(ms, w.log, s);
    if !s.Launched? && s.next < |ms| {
      NextIsFirstMissing(ms, w.log, s.next);
    }
    if e.InsertRow? && s.SqlDone? && StepOf(ms, w, s, e).1.RowInserted? {
      forall other | other in w.starters && other != e.id ensures !w.starters[other].RowInserted? {
        assert StarterInv(ms, w.log, w.starters[other]);
        assert !Holds(w.starters[other], ms, ms[s.next].version);
      }
    }
    if e.Commit? && s.RowInserted? {
      assert ms[..|w.log|] + [ms[|w.log|]] == ms[..|w.log| + 1];
    }
    assert ms[..|ms|] == ms;
  }

  lemma StepKeepsInv(ms: seq<Migration>, w: World, e: Event)
    requires Listed(ms) && Inv(ms, w)
    ensures Inv(ms, Step(ms, w, e)) && w.log <= Step(ms, w, e).log
  {
    if !e.Launch? && e.id in w.starters && !w.starters[e.id].Finished? && InList(ms, w.starters[e.id]) {
      StepOfKeepsInv(ms, w, e);
      var w' := Step(ms, w, e);
      forall id | id in w'.starters ensures StarterInv(ms, w'.log, w'.starters[id]) {
        if id != e.id {
          assert StarterInv(ms, w.log, w.starters[id]);
          GrownLogKeepsStarter(ms, w.log, w'.log, w.starters[id]);
        }
      }
    }
  }

  lemma GrownLogKeepsStarter(ms: seq<Migration>, log: seq<Migration>, log': seq<Migration>, s: Starter)
    requires log <= log' && |log'| <= |ms| && log' == ms[..|log'|] && StarterInv(ms, log, s)
    requires s.RowInserted? ==> log' == log
    ensures StarterInv(ms, log', s)
  {
    forall v | v in Versions(log) ensures v in Versions(log') {
      var m :| m in log && m.version == v;
      assert m in log';
    }
    assert ms[..|ms|] == ms;
  }

  lemma {:induction false} RunKeepsInv(ms: seq<Migration>, w: World, events: seq<Event>)
    requires Listed(ms) && Inv(ms, w)
    ensures Inv(ms, Run(ms, w, events)) && w.log <= Run(ms, w, events).log
    decreases |events|
  {
    if events != [] {
      StepKeepsInv(ms, w, events[0]);
      RunKeepsInv(ms, Step(ms, w, events[0]), events[1..]);
    }
  }

  // ----- what holds after every run -----

  /** From a database that holds the first n migrations (none, or what an earlier
      release of the list left), after any run of any number of starters: the
      committed migrations are a prefix of the list, no shorter than before, each
      committed once; and if any starter has returned success, all of them are. */
  lemma AppliedIsPrefix(ms: seq<Migration>, n: nat, events: seq<Event>)
    requires Listed(ms) && n <= |ms|
    ensures var w := Run(ms, World(ms[..n], map[]), events);
      && n <= |w.log| <= |ms| && w.log == ms[..|w.log|]
      && (forall i, j | 0 <= i < j < |w.log| :: w.log[i].version != w.log[j].version)
      && (forall id | id in w.starters && w.starters[id].Finished? && w.starters[id].completed :: w.log == ms)
  {
    var w := Run(ms, World(ms[..n], map[]), events);
    RunKeepsInv(ms, World(ms[..n], map[]), events);
    forall i, j | 0 <= i < j < |w.log| ensures w.log[i].version != w.log[j].version {
      assert Version()(ms[i]) < Version()(ms[j]);
    }
    forall id | id in w.starters && w.starters[id].Finished? && w.starters[id].completed ensures w.log == ms {
      assert StarterInv(ms, w.log, w.starters[id]);
    }
  }

  /** And however such a run ended, one more call without faults completes the list
      exactly when the versions still missing fit their column; the call after it
      applies nothing. */
  lemma RecoversAfterAnyRun(ms: seq<Migration>, n: nat, events: seq<Event>, later: nat -> TxFault)
    requires Listed(ms) && n <= |ms|
    ensures var log := Run(ms, World(ms[..n], map[]), events).log;
      var o := MigrateAlone(log, ms, _ => Fine);
      && (o.Completed() <==> forall j | |log| <= j < |ms| :: ms[j].version <= MAX_INTEGER)
      && (o.Completed() ==> o.log == ms && MigrateAlone(o.log, ms, later) == Outcome(ms, [], None))
  {
    AppliedIsPrefix(ms, n, events);
    var log := Run(ms, World(ms[..n], map[]), events).log;
    RerunConverges(ms, |log|, _ => Fine, later);
  }

  /** A starter can crash between any two steps. What it had not committed is rolled back,
      and it never returns success. */
  lemma CrashEndsStarter(ms: seq<Migration>, w: World, id: nat, later: seq<Event>)
    requires id in w.starters && !w.starters[id].Finished? && InList(ms, w.starters[id])
    ensures Step(ms, w, Crash(id)).log == w.log
    ensures var w' := Run(ms, Step(ms, w, Crash(id)), later);
      id in w'.starters && w'.starters[id] == Finished(false)
  {
    FinishedForGood(ms, Step(ms, w, Crash(id)), id, later);
  }

  lemma {:induction false} FinishedForGood(ms: seq<Migration>, w: World, id: nat, later: seq<Event>)
    requires id in w.starters && w.starters[id].Finished?
    ensures var w' := Run(ms, w, later); id in w'.starters && w'.starters[id] == w.starters[id]
    decreases |later|
  {
    if later != [] {
      FinishedForGood(ms, Step(ms, w, later[0]), id, later[1..]);
    }
  }

  // ----- the runner on its own is a run of the protocol -----

  /** The steps of one starter from migration i on, with the faults it meets. */
  function SoloFrom(id: nat, ms: seq<Migration>, faults: nat -> TxFault, i: nat): seq<Event>
    requires i <= |ms|
    decreases |ms| - i
  {
    if i == |ms| then [Advance(id, false)]
    else
      [Advance(id, faults(i).BeginFails?), ExecSql(id, faults(i).SqlFails?),
       InsertRow(id, faults(i).RecordFails?), Commit(id, faults(i))] + SoloFrom(id, ms, faults, i + 1)
  }

  lemma {:induction false} FinishedStays(ms: seq<Migration>, w: World, id: nat, events: seq<Event>)
    requires id in w.starters && w.starters[id].Finished? && forall e | e in events :: e.id == id
    ensures Run(ms, w, events) == w
    decreases |events|
  {
    if events != [] {
      assert Step(ms, w, events[0]) == w;
      FinishedStays(ms, w, id, events[1..]);
    }
  }

  lemma {:induction false} SoloEventsAreOwn(id: nat, ms: seq<Migration>, faults: nat -> TxFault, i: nat)
    requires i <= |ms|
    ensures forall e | e in SoloFrom(id, ms, faults, i) :: e.id == id
    decreases |ms| - i
  {
    if i < |ms| {
      SoloEventsAreOwn(id, ms, faults, i + 1);
    }
  }

  lemma RunOne(ms: seq<Migration>, w: World, a: Event, rest: seq<Event>)
    ensures Run(ms, w, [a] + rest) == Run(ms, Step(ms, w, a), rest)
  {
    assert ([a] + rest)[1..] == rest;
  }

  function FourSteps(ms: seq<Migration>, w: World, id: nat, f: TxFault): World {
    Step(ms, Step(ms, Step(ms, Step(ms, w, Advance(id, f.BeginFails?)), ExecSql(id, f.SqlFails?)),
                  InsertRow(id, f.RecordFails?)), Commit(id, f))
  }

  lemma RunFour(ms: seq<Migration>, w: World, id: nat, faults: nat -> TxFault, i: nat)
    requires i < |ms|
    ensures Run(ms, w, SoloFrom(id, ms, faults, i)) ==
      Run(ms, FourSteps(ms, w, id, faults(i)), SoloFrom(id, ms, faults, i + 1))
  {
    var f, rest := faults(i), SoloFrom(id, ms, faults, i + 1);
    var a, b := Advance(id, f.BeginFails?), ExecSql(id, f.SqlFails?);
    var c, d := InsertRow(id, f.RecordFails?), Commit(id, f);
    assert SoloFrom(id, ms, faults, i) == [a] + ([b] + ([c] + ([d] + rest)));
    RunOne(ms, w, a, [b] + ([c] + ([d] + rest)));
    RunOne(ms, Step(ms, w, a), b, [c] + ([d] + rest));
    RunOne(ms, Step(ms, Step(ms, w, a), b), c, [d] + rest);
    RunOne(ms, Step(ms, Step(ms, Step(ms, w, a), b), c), d, rest);
  }

  ghost predicate Alone(w: World, id: nat) {
    forall other | other in w.starters && other != id :: !w.starters[other].RowInserted?
  }

  /** The four steps at one migration: a skip, or what one attempt does. */
  lemma FourStepsAreAttempt(ms: seq<Migration>, w: World, id: nat, f: TxFault)
    requires id in w.starters && w.starters[id].AtLoop? && w.starters[id].next < |ms| && Alone(w, id)
    ensures var s := w.starters[id];
      var (log, ok) := Attempt(w.log, ms[s.next], f);
      var goesOn := AtLoop(s.applied, s.next + 1);
      FourSteps(ms, w, id, f) ==
        if ms[s.next].version in s.applied then World(w.log, w.starters[id := goesOn])
        else World(log, w.starters[id := if ok then goesOn else Finished(false)])
  {
    var s := w.starters[id];
    var i, m := s.next, ms[s.next];
    var w1 := Step(ms, w, Advance(id, f.BeginFails?));
    if m.version in s.applied {
      assert w1 == World(w.log, w.starters[id := AtLoop(s.applied, i + 1)]);
      OtherStepsDoNothing(ms, w1, id, f);
    } else if f.BeginFails? {
      assert w1 == World(w.log, w.starters[id := Finished(false)]);
      OtherStepsDoNothing(ms, w1, id, f);
    } else {
      assert w1 == World(w.log, w.starters[id := InTransaction(s.applied, i)]);
      ThreeStepsAreAttempt(ms, w, w1, id, f);
    }
  }

  lemma OtherStepsDoNothing(ms: seq<Migration>, w: World, id: nat, f: TxFault)
    requires id in w.starters && (w.starters[id].AtLoop? || w.starters[id].Finished?)
    ensures Step(ms, Step(ms, Step(ms, w, ExecSql(id, f.SqlFails?)), InsertRow(id, f.RecordFails?)), Commit(id, f)) == w
  {
    assert Step(ms, w, ExecSql(id, f.SqlFails?)) == w;
    assert Step(ms, w, InsertRow(id, f.RecordFails?)) == w;
    assert Step(ms, w, Commit(id, f)) == w;
  }

  lemma ThreeStepsAreAttempt(ms: seq<Migration>, w: World, w1: World, id: nat, f: TxFault)
    requires id in w.starters && w.starters[id].AtLoop? && w.starters[id].next < |ms| && Alone(w, id) && !f.BeginFails?
    requires var s := w.starters[id]; w1 == World(w.log, w.starters[id := InTransaction(s.applied, s.next)])
    ensures var s := w.starters[id];
      var (log, ok) := Attempt(w.log, ms[s.next], f);
      Step(ms, Step(ms, Step(ms, w1, ExecSql(id, f.SqlFails?)), InsertRow(id, f.RecordFails?)), Commit(id, f))
      == World(log, w.starters[id := if ok then AtLoop(s.applied, s.next + 1) else Finished(false)])
  {
    var s := w.starters[id];
    var w2 := Step(ms, w1, ExecSql(id, f.SqlFails?));
    if f.SqlFails? {
      assert w2 == World(w.log, w.starters[id := Finished(false)]);
    } else {
      assert w2 == World(w.log, w.starters[id := SqlDone(s.applied, s.next)]);
      assert !Blocked(w2, ms, id, ms[s.next].version);
      var w3 := Step(ms, w2, InsertRow(id, f.RecordFails?));
      if f.RecordFails? || !CanRecord(w.log, ms[s.next]) {
        assert w3 == World(w.log, w.starters[id := Finished(false)]);
      } else {
        assert w3 == World(w.log, w.starters[id := RowInserted(s.applied, s.next)]);
      }
    }
  }

  /** While no other starter is inside a transaction, the loop's steps do what the
      sequential runner does: the same log, and the same ending. */
  lemma {:induction false} SoloIsMigrate(ms: seq<Migration>, w: World, id: nat, faults: nat -> TxFault, i: nat)
    requires i <= |ms| && id in w.starters && w.starters[id].AtLoop? && w.starters[id].next == i
    requires Alone(w, id)
    ensures var w' := Run(ms, w, SoloFrom(id, ms, faults, i));
      var o := MigrateFrom(w.log, w.starters[id].applied, ms, faults, i);
      w'.log == o.log && id in w'.starters && w'.starters[id] == Finished(o.Completed())
    decreases |ms| - i
  {
    if i == |ms| {
      assert SoloFrom(id, ms, faults, i)[1..] == [];
    } else {
      RunFour(ms, w, id, faults, i);
      FourStepsAreAttempt(ms, w, id, faults(i));
      var w4 := FourSteps(ms, w, id, faults(i));
      if w4.starters[id].Finished? {
        SoloEventsAreOwn(id, ms, faults, i + 1);
        FinishedStays(ms, w4, id, SoloFrom(id, ms, faults, i + 1));
      } else {
        SoloIsMigrate(ms, w4, id, faults, i + 1);
      }
    }
  }

  /** A whole call on its own, from its launch on, is one call of the sequential runner;
      it reports success exactly when the runner returns no error. */
  lemma CallIsMigrate(ms: seq<Migration>, w: World, id: nat, faults: nat -> TxFault)
    requires id !in w.starters && forall other | other in w.starters :: !w.starters[other].RowInserted?
    ensures var w' := Run(ms, w, [Launch(id)] + ([ReadApplied(id, false)] + SoloFrom(id, ms, faults, 0)));
      var o := MigrateAlone(w.log, ms, faults);
      w'.log == o.log && id in w'.starters && w'.starters[id] == Finished(o.Completed())
  {
    var rest := SoloFrom(id, ms, faults, 0);
    RunOne(ms, w, Launch(id), [ReadApplied(id, false)] + rest);
    var w1 := Step(ms, w, Launch(id));
    RunOne(ms, w1, ReadApplied(id, false), rest);
    SoloIsMigrate(ms, Step(ms, w1, ReadApplied(id, false)), id, faults, 0);
  }
}
