/** The commitments table: its constraints, its monotonic trigger, and the two
    statements that use it. */
module CommitmentsTable {
  import opened Wrappers
  import opened Bytes
  import opened Postgres

  datatype Row = Row(
    id: nat,
    channel: string,
    amount: int,
    signature: Bytes,
    signerKey: Bytes,
    verifiedAt: int,
    valid: bool)

  /** The rows in the order they were inserted, and the next value of the id
      sequence, which an insert uses up whether or not it writes a row. */
  datatype Table = Table(rows: seq<Row>, nextId: nat)

  /** The columns an INSERT supplies. */
  datatype Values = Values(channel: string, amount: int, signature: Bytes, signerKey: Bytes, valid: bool)

  datatype InsertReply =
    | Inserted(id: nat, verifiedAt: int, valid: bool)
    | NoRows              // ON CONFLICT DO NOTHING found the pair
    | MonotonicViolation  // SQLSTATE TB001
    | OtherError

  /** SELECT MAX(cumulative_amount) over one channel; None is SQL's NULL. */
  function CurrentMax(rows: seq<Row>, channel: string): Option<int> {
    if rows == [] then None
    else
      var last := rows[|rows| - 1];
      var rest := CurrentMax(rows[..|rows| - 1], channel);
      if last.channel != channel then rest
      else if rest.None? || rest.value < last.amount then Some(last.amount) else rest
  }

  /** The SELECT by channel and amount. */
  function Find(rows: seq<Row>, channel: string, amount: int): Option<Row> {
    if rows == [] then None
    else
      var last := rows[|rows| - 1];
      if last.channel == channel && last.amount == amount then Some(last)
      else Find(rows[..|rows| - 1], channel, amount)
  }

  /** INSERT ... ON CONFLICT DO NOTHING RETURNING, as one atomic step: the row
      trigger first, then the CHECK constraints, then the unique pair. */
  function Insert(t: Table, v: Values, now: int): (Table, InsertReply) {
    var burnt := t.(nextId := t.nextId + 1);
    var max := CurrentMax(t.rows, v.channel);
    if v.amount <= -NUMERIC_LIMIT || v.amount >= NUMERIC_LIMIT then (t, OtherError)
    else if max.Some? && v.amount < max.value then (burnt, MonotonicViolation)
    else if v.amount <= 0 || |v.signerKey| != 32 then (burnt, OtherError)
    else if Find(t.rows, v.channel, v.amount).Some? then (burnt, NoRows)
    else
      var row := Row(t.nextId, v.channel, v.amount, v.signature, v.signerKey, now, v.valid);
      (burnt.(rows := t.rows + [row]), Inserted(row.id, row.verifiedAt, row.valid))
  }

  class Database {
    var rows: seq<Row>
    var nextId: nat

    function Contents(): Table
      reads this
    {
      Table(rows, nextId)
    }

    constructor ()
      ensures Contents() == Table([], 1)
    {
      rows := [];
      nextId := 1;
    }

    /** The commitments_reject_regression trigger: reads the maximum into a
        variable and refuses a lower amount. */
    method RejectRegression(channel: string, amount: int) returns (raise: bool)
      ensures raise <==> exists r | r in rows :: r.channel == channel && amount < r.amount
    {
      var currentMax := CurrentMax(rows, channel);
      CurrentMaxIsMax(rows, channel);
      raise := currentMax.Some? && amount < currentMax.value;
      if raise {
        var r :| r in rows && r.channel == channel && r.amount == currentMax.value;
      }
    }

    method InsertCommitment(v: Values, now: int) returns (reply: InsertReply)
      modifies this
      ensures (Contents(), reply) == Insert(old(Contents()), v, now)
    {
      if v.amount <= -NUMERIC_LIMIT || v.amount >= NUMERIC_LIMIT {
        return OtherError;
      }
      CurrentMaxIsMax(rows, v.channel);
      var id := nextId;
      nextId := nextId + 1;
      var raise := RejectRegression(v.channel, v.amount);
      if raise {
        return MonotonicViolation;
      }
      if v.amount <= 0 || |v.signerKey| != 32 {
        return OtherError;
      }
      if Find(rows, v.channel, v.amount).Some? {
        return NoRows;
      }
      rows := rows + [Row(id, v.channel, v.amount, v.signature, v.signerKey, now, v.valid)];
      reply := Inserted(id, now, v.valid);
    }
  }

  lemma {:induction false} CurrentMaxIsMax(rows: seq<Row>, channel: string)
    ensures CurrentMax(rows, channel).None? ==> forall r | r in rows :: r.channel != channel
    ensures CurrentMax(rows, channel).Some? ==>
      && (exists r | r in rows :: r.channel == channel && r.amount == CurrentMax(rows, channel).value)
      && (forall r | r in rows && r.channel == channel :: r.amount <= CurrentMax(rows, channel).value)
  {
    if rows != [] {
      var n := |rows| - 1;
      CurrentMaxIsMax(rows[..n], channel);
      assert rows == rows[..n] + [rows[n]];
      assert rows[n] in rows;
    }
  }

  lemma {:induction false} FindFinds(rows: seq<Row>, channel: string, amount: int)
    ensures Find(rows, channel, amount).None? <==>
      forall r | r in rows :: !(r.channel == channel && r.amount == amount)
    ensures Find(rows, channel, amount).Some? ==>
      var r := Find(rows, channel, amount).value; r in rows && r.channel == channel && r.amount == amount
  {
    if rows != [] {
      var n := |rows| - 1;
      FindFinds(rows[..n], channel, amount);
      assert rows == rows[..n] + [rows[n]];
    }
  }

  // ----- what every insert keeps -----

  /** Within a channel amounts rise strictly in insertion order; ids rise across
      the table; every row meets the CHECK constraints. */
  ghost predicate TableInv(t: Table) {
    && (forall i, j | 0 <= i < j < |t.rows| && t.rows[i].channel == t.rows[j].channel ::
          t.rows[i].amount < t.rows[j].amount)
    && (forall i, j | 0 <= i < j < |t.rows| :: t.rows[i].id < t.rows[j].id)
    && (forall r | r in t.rows :: r.id < t.nextId && 0 < r.amount < NUMERIC_LIMIT && |r.signerKey| == 32)
  }

  function OnChannel(rows: seq<Row>, channel: string): seq<Row> {
    if rows == [] then []
    else
      var last := rows[|rows| - 1];
      OnChannel(rows[..|rows| - 1], channel) + (if last.channel == channel then [last] else [])
  }

  lemma AppendKeepsTable(t: Table, r: Row)
    requires TableInv(t) && r.id == t.nextId && 0 < r.amount < NUMERIC_LIMIT && |r.signerKey| == 32
    requires forall q | q in t.rows && q.channel == r.channel :: q.amount < r.amount
    ensures TableInv(Table(t.rows + [r], t.nextId + 1))
  {
    forall i | 0 <= i < |t.rows|
      ensures t.rows[i].id < r.id && (t.rows[i].channel == r.channel ==> t.rows[i].amount < r.amount)
    {
      assert t.rows[i] in t.rows;
    }
  }

  /** One insert keeps the invariant and never changes or removes a row. */
  lemma InsertKeepsTable(t: Table, v: Values, now: int)
    requires TableInv(t)
    ensures TableInv(Insert(t, v, now).0)
    ensures t.rows <= Insert(t, v, now).0.rows
  {
    var (t', reply) := Insert(t, v, now);
    if reply.Inserted? {
      InsertedIsHighest(t, v, now);
      var row := Row(t.nextId, v.channel, v.amount, v.signature, v.signerKey, now, v.valid);
      AppendKeepsTable(t, row);
      assert t' == Table(t.rows + [row], t.nextId + 1);
    } else {
      LaterIdKeepsTable(t, t'.nextId);
      assert t' == Table(t.rows, t'.nextId);
    }
  }

  lemma LaterIdKeepsTable(t: Table, nextId: nat)
    requires TableInv(t) && t.nextId <= nextId
    ensures TableInv(Table(t.rows, nextId))
  {
  }

  lemma InsertedIsHighest(t: Table, v: Values, now: int)
    requires Insert(t, v, now).1.Inserted?
    ensures 0 < v.amount < NUMERIC_LIMIT && |v.signerKey| == 32
    ensures forall q | q in t.rows && q.channel == v.channel :: q.amount < v.amount
  {
    CurrentMaxIsMax(t.rows, v.channel);
    FindFinds(t.rows, v.channel, v.amount);
  }

  /** One insert leaves every other channel's rows alone. */
  lemma InsertKeepsOtherChannels(t: Table, v: Values, now: int, channel: string)
    requires channel != v.channel
    ensures OnChannel(Insert(t, v, now).0.rows, channel) == OnChannel(t.rows, channel)
    ensures var rows := Insert(t, v, now).0.rows;
      t.rows <= rows && forall i | |t.rows| <= i < |rows| :: rows[i].channel != channel
  {
    var t' := Insert(t, v, now).0;
    if t'.rows != t.rows {
      assert t'.rows[..|t.rows|] == t.rows;
    }
  }

  /** What an insert does and what it replies: a row above everything its channel
      holds is written; the channel's maximum itself is left as it is; anything below
      raises the violation. */
  lemma InsertReplies(t: Table, v: Values, now: int)
    requires TableInv(t)
    ensures var (t', reply) := Insert(t, v, now);
      && (reply.Inserted? <==>
            (0 < v.amount < NUMERIC_LIMIT && |v.signerKey| == 32
             && forall r | r in t.rows && r.channel == v.channel :: r.amount < v.amount))
      && (reply.Inserted? ==> reply == Inserted(t.nextId, now, v.valid))
      && (reply.Inserted? ==>
            t'.rows == t.rows + [Row(t.nextId, v.channel, v.amount, v.signature, v.signerKey, now, v.valid)])
      && (!reply.Inserted? ==> t'.rows == t.rows)
      && (reply.NoRows? <==> CurrentMax(t.rows, v.channel) == Some(v.amount) && |v.signerKey| == 32)
      && (reply.MonotonicViolation? <==>
            (v.amount > -NUMERIC_LIMIT && exists r | r in t.rows :: r.channel == v.channel && v.amount < r.amount))
  {
    CurrentMaxIsMax(t.rows, v.channel);
    FindFinds(t.rows, v.channel, v.amount);
  }

  /** An id is used up by every insert whose amount fits its column, written or not. */
  lemma IdsAreUsedUp(t: Table, v: Values, now: int)
    ensures Insert(t, v, now).0.nextId ==
      if -NUMERIC_LIMIT < v.amount < NUMERIC_LIMIT then t.nextId + 1 else t.nextId
  {
  }

  /** The row inserted last for a channel is the channel's maximum. */
  lemma LatestIsMax(t: Table, i: nat)
    requires TableInv(t) && i < |t.rows|
    requires forall j | i < j < |t.rows| :: t.rows[j].channel != t.rows[i].channel
    ensures CurrentMax(t.rows, t.rows[i].channel) == Some(t.rows[i].amount)
  {
    CurrentMaxIsMax(t.rows, t.rows[i].channel);
    assert t.rows[i] in t.rows;
  }

  /** A channel holds an amount at most once. */
  lemma FindIsTheRow(t: Table, r: Row)
    requires TableInv(t) && r in t.rows
    ensures Find(t.rows, r.channel, r.amount) == Some(r)
  {
    FindFinds(t.rows, r.channel, r.amount);
  }
}
