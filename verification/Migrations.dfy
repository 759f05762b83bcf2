/** The migration runner: one call on its own, and any number of starters at once. */
module Migrations {
  import opened Wrappers
  import opened Postgres
  import opened Decimals
  import opened Sorting
  import opened MigrationFiles

  /** What can go wrong for one migration: its transaction cannot begin, one of its
      statements or its commit fails, or the commit takes effect and only its reply
      is lost. */
  datatype TxFault = Fine | BeginFails | SqlFails | RecordFails | CommitFails | CommitReplyLost

  datatype MigrateError = TrackingTableFailed | ReadAppliedFailed | Stopped(filename: string)

  function Versions(log: seq<Migration>): set<nat> {
    set m | m in log :: m.version
  }

  /** The bookkeeping insert goes through unless the version does not fit the column
      or is the primary key of a recorded row. */
  predicate CanRecord(log: seq<Migration>, m: Migration) {
    m.version <= MAX_INTEGER && m.version !in Versions(log)
  }

  /** One migration's transaction: the log of committed transactions after it, and
      whether the runner goes on. Schema change and bookkeeping row commit together,
      so one log entry stands for both. */
  function Attempt(log: seq<Migration>, m: Migration, fault: TxFault): (seq<Migration>, bool) {
    if fault.BeginFails? || fault.SqlFails? || !CanRecord(log, m) then (log, false)
    else match fault
      case Fine => (log + [m], true)
      case CommitReplyLost => (log + [m], false)
      case _ => (log, false)
  }

  /** `error` is None when the call has been through the whole list. */
  datatype Outcome = Outcome(log: seq<Migration>, newlyApplied: seq<Migration>, error: Option<MigrateError>) {
    predicate Completed() {
      error.None?
    }
  }

  /** The loop from migration i on, with the versions read at the start. */
  function MigrateFrom(log: seq<Migration>, applied: set<nat>, ms: seq<Migration>, faults: nat -> TxFault,
                       i: nat): Outcome
    requires i <= |ms|
    decreases |ms| - i
  {
    if i == |ms| then Outcome(log, [], None)
    else if ms[i].version in applied then MigrateFrom(log, applied, ms, faults, i + 1)
    else
      var (log', ok) := Attempt(log, ms[i], faults(i));
      if !ok then Outcome(log', [], Some(Stopped(ms[i].filename)))
      else
        var rest := MigrateFrom(log', applied, ms, faults, i + 1);
        rest.(newlyApplied := [ms[i]] + rest.newlyApplied)
  }

  function MigrateAlone(log: seq<Migration>, ms: seq<Migration>, faults: nat -> TxFault): Outcome {
    MigrateFrom(log, Versions(log), ms, faults, 0)
  }

  /** The database: its committed migration transactions, in commit order. */
  class Database {
    var log: seq<Migration>

    constructor ()
      ensures log == []
    {
      log := [];
    }

    method ApplyOne(m: Migration, fault: TxFault) returns (ok: bool)
      modifies this
      ensures (log, ok) == Attempt(old(log), m, fault)
    {
      if fault.BeginFails? || fault.SqlFails? || !CanRecord(log, m) || fault.RecordFails? || fault.CommitFails? {
        return false;
      }
      log := log + [m];
      ok := !fault.CommitReplyLost?;
    }
  }

  method AppliedVersions(db: Database) returns (applied: map<nat, bool>)
    ensures forall v :: v in applied <==> v in Versions(db.log)
    ensures forall v | v in applied :: applied[v]
  {
    applied := map[];
    for i := 0 to |db.log|
      invariant forall v :: v in applied <==> v in Versions(db.log[..i])
      invariant forall v | v in applied :: applied[v]
    {
      assert db.log[..i + 1] == db.log[..i] + [db.log[i]];
      applied := applied[db.log[i].version := true];
    }
    assert db.log[..|db.log|] == db.log;
  }

  method Migrate(db: Database, migrations: seq<Migration>, tableFails: bool, readFails: bool, faults: nat -> TxFault)
    returns (newlyApplied: seq<Migration>, error: Option<MigrateError>)
    modifies db
    ensures tableFails || readFails ==> db.log == old(db.log) && newlyApplied == []
    ensures tableFails ==> error == Some(TrackingTableFailed)
    ensures !tableFails && readFails ==> error == Some(ReadAppliedFailed)
    ensures !tableFails && !readFails ==>
      Outcome(db.log, newlyApplied, error) == MigrateAlone(old(db.log), migrations, faults)
  {
    newlyApplied := [];
    if tableFails {
      return [], Some(TrackingTableFailed);
    }
    if readFails {
      return [], Some(ReadAppliedFailed);
    }
    var applied := AppliedVersions(db);
    ghost var start := Versions(db.log);
    for i := 0 to |migrations|
      invariant forall v :: v in applied <==> v in start
      invariant forall v | v in applied :: applied[v]
      invariant Continues(MigrateAlone(old(db.log), migrations, faults), newlyApplied,
                          MigrateFrom(db.log, start, migrations, faults, i))
    {
      var m := migrations[i];
      if m.version in applied && applied[m.version] {
        continue;
      }
      var ok := db.ApplyOne(m, faults(i));
      if !ok {
        return newlyApplied, Some(Stopped(m.filename));
      }
      newlyApplied := newlyApplied + [m];
    }
    error := None;
  }

  /** What the whole call does, from what it has applied and what it has left to do. */
  ghost predicate Continues(whole: Outcome, soFar: seq<Migration>, rest: Outcome) {
    whole == rest.(newlyApplied := soFar + rest.newlyApplied)
  }

  // ----- one call on its own -----

  /** The list a starter is given: strictly ascending versions, as parsed. */
  predicate Listed(ms: seq<Migration>) {
    StrictlyAscending(ms, Version())
  }

  lemma VersionsOfPrefix(ms: seq<Migration>, k: nat, i: nat)
    requires Listed(ms) && k <= |ms| && i < |ms|
    ensures ms[i].version in Versions(ms[..k]) <==> i < k
  {
    if i < k {
      assert ms[..k][i] == ms[i];
    } else {
      forall j | 0 <= j < k ensures ms[j].version != ms[i].version {
        assert Version()(ms[j]) < Version()(ms[i]);
      }
    }
  }

  /** The outcome of a call on a database that holds the first n migrations. */
  ghost predicate ExtendsPrefix(ms: seq<Migration>, n: nat, o: Outcome) {
    && n <= |o.log| <= |ms| && o.log == ms[..|o.log|]
    && n + |o.newlyApplied| <= |o.log| <= n + |o.newlyApplied| + 1
    && o.newlyApplied == ms[n..n + |o.newlyApplied|]
    && (o.Completed() ==> |o.log| == n + |o.newlyApplied| == |ms|)
  }

  /** From a database that holds a prefix of the list, whatever fails, the log stays
      a prefix of the list and does not get shorter; what is reported as newly applied
      is what was added, except for a commit whose reply was lost. A call that
      completes leaves the whole list. */
  lemma PrefixFrom(ms: seq<Migration>, k: nat, n: nat, faults: nat -> TxFault, i: nat)
    requires Listed(ms) && k <= n <= |ms| && i <= |ms| && (i <= n == k || i == n)
    ensures ExtendsPrefix(ms, n, MigrateFrom(ms[..n], Versions(ms[..k]), ms, faults, i))
  {
    var stop := FindStop(ms, n, faults);
    AppliesFrom(ms, k, n, faults, i, stop);
    StoppedIsPrefix(ms, n, faults, stop, MigrateFrom(ms[..n], Versions(ms[..k]), ms, faults, i));
  }

  lemma StoppedIsPrefix(ms: seq<Migration>, n: nat, faults: nat -> TxFault, stop: nat, o: Outcome)
    requires n <= stop <= |ms| && AppliesUpTo(ms, n, faults, stop, o)
    ensures ExtendsPrefix(ms, n, o)
  {
  }

  /** Where a call on a database that holds the first n migrations comes to a stop: at
      the first one whose transaction meets a fault or whose version does not fit. */
  ghost predicate StopsAt(ms: seq<Migration>, n: nat, faults: nat -> TxFault, stop: nat) {
    && n <= stop <= |ms|
    && (forall j | n <= j < stop :: faults(j) == Fine && ms[j].version <= 2147483647)
    && (stop < |ms| ==> faults(stop) != Fine || ms[stop].version > 2147483647)
  }

  /** Exactly what a call does, whatever faults it meets: it applies and reports every
      migration up to the one it stops at and names that one in its error; only when the
      reply to a commit is lost is that one in the log as well. */
  ghost predicate AppliesUpTo(ms: seq<Migration>, n: nat, faults: nat -> TxFault, stop: nat, o: Outcome)
    requires n <= stop <= |ms|
  {
    && o.newlyApplied == ms[n..stop]
    && o.error == (if stop == |ms| then None else Some(Stopped(ms[stop].filename)))
    && o.log == (if stop < |ms| && faults(stop) == CommitReplyLost && ms[stop].version <= MAX_INTEGER
                 then ms[..stop + 1] else ms[..stop])
  }

  lemma MigrateStopsAtFirstFault(ms: seq<Migration>, n: nat, faults: nat -> TxFault) returns (stop: nat)
    requires Listed(ms) && n <= |ms|
    ensures StopsAt(ms, n, faults, stop) && AppliesUpTo(ms, n, faults, stop, MigrateAlone(ms[..n], ms, faults))
  {
    stop := FindStop(ms, n, faults);
    AppliesFrom(ms, n, n, faults, 0, stop);
  }

  lemma {:induction false} FindStop(ms: seq<Migration>, n: nat, faults: nat -> TxFault) returns (stop: nat)
    requires n <= |ms|
    ensures StopsAt(ms, n, faults, stop)
    decreases |ms| - n
  {
    if n == |ms| || faults(n) != Fine || ms[n].version > MAX_INTEGER {
      stop := n;
    } else {
      stop := FindStop(ms, n + 1, faults);
    }
  }

  lemma {:induction false} AppliesFrom(ms: seq<Migration>, k: nat, n: nat, faults: nat -> TxFault, i: nat, stop: nat)
    requires Listed(ms) && k <= n <= |ms| && i <= |ms| && (i <= n == k || i == n) && StopsAt(ms, n, faults, stop)
    ensures AppliesUpTo(ms, n, faults, stop, MigrateFrom(ms[..n], Versions(ms[..k]), ms, faults, i))
    decreases |ms| - i
  {
    if i < |ms| {
      VersionsOfPrefix(ms, k, i);
      if i < k {
        AppliesFrom(ms, k, n, faults, i + 1, stop);
      } else {
        AttemptAt(ms, n, faults(n));
        if n < stop {
          AppliesFrom(ms, k, n + 1, faults, i + 1, stop);
          AppliesOneMore(ms, n, faults, stop, MigrateFrom(ms[..n + 1], Versions(ms[..k]), ms, faults, i + 1));
        }
      }
    }
  }

  lemma AppliesOneMore(ms: seq<Migration>, n: nat, faults: nat -> TxFault, stop: nat, rest: Outcome)
    requires n < stop <= |ms| && AppliesUpTo(ms, n + 1, faults, stop, rest)
    ensures AppliesUpTo(ms, n, faults, stop, rest.(newlyApplied := [ms[n]] + rest.newlyApplied))
  {
    assert ms[n..stop] == [ms[n]] + ms[n + 1..stop];
  }

  /** The transaction of the first migration that is missing. */
  lemma AttemptAt(ms: seq<Migration>, n: nat, fault: TxFault)
    requires Listed(ms) && n < |ms|
    ensures var (log, ok) := Attempt(ms[..n], ms[n], fault);
      && (ok <==> fault == Fine && ms[n].version <= MAX_INTEGER)
      && log == (if (fault == Fine || fault == CommitReplyLost) && ms[n].version <= MAX_INTEGER
                 then ms[..n + 1] else ms[..n])
  {
    VersionsOfPrefix(ms, n, n);
    assert ms[..n] + [ms[n]] == ms[..n + 1];
  }

  /** However earlier calls ended, a call without faults reaches the full list
      exactly when the missing versions fit the column, and the call after it, with
      whatever faults, applies nothing and completes. */
  lemma RerunConverges(ms: seq<Migration>, n: nat, faults: nat -> TxFault, later: nat -> TxFault)
    requires Listed(ms) && n <= |ms| && forall j :: faults(j) == Fine
    ensures var o := MigrateAlone(ms[..n], ms, faults);
      && (o.Completed() <==> forall j | n <= j < |ms| :: ms[j].version <= MAX_INTEGER)
      && (o.Completed() ==> o.log == ms && o.newlyApplied == ms[n..])
      && (o.Completed() ==> MigrateAlone(o.log, ms, later) == Outcome(ms, [], None))
  {
    var stop := MigrateStopsAtFirstFault(ms, n, faults);
    assert ms[..|ms|] == ms && ms[n..|ms|] == ms[n..];
    NothingLeft(ms, later, 0);
  }

  /** The parser accepts a migration of version 2147483648, and no call ever records it. */
  lemma WideVersionIsNeverRecorded(sql: string, faults: nat -> TxFault)
    ensures var name := Show(2147483648) + "_" + "a" + ".sql";
      var ms := [Migration(2147483648, "a", name, sql)];
      && Scan([Entry(name, false, Some(sql))]) == Success(ms)
      && MigrateAlone([], ms, faults).log == [] && !MigrateAlone([], ms, faults).Completed()
  {
    var digits := Show(MAX_INTEGER + 1);
    var e := Entry(digits + "_" + "a" + SUFFIX, false, Some(sql));
    MatchIsSplit(e.name, digits, "a");
    ValueOfShow(MAX_INTEGER + 1);
    assert Read(e) == Success(Migration(MAX_INTEGER + 1, "a", e.name, sql));
    OneFile(e);
  }

  lemma {:induction false} NothingLeft(ms: seq<Migration>, faults: nat -> TxFault, i: nat)
    requires Listed(ms) && i <= |ms|
    ensures MigrateFrom(ms, Versions(ms), ms, faults, i) == Outcome(ms, [], None)
    decreases |ms| - i
  {
    if i < |ms| {
      NothingLeft(ms, faults, i + 1);
    }
  }
}
