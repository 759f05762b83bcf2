/** Why CommitmentsTable takes an insert as one step. The trigger's SELECT MAX sees
    committed rows only; here another session commits between a trigger's check and
    the row it lets through. */
module CustodyRace {
  import opened Bytes
  import opened Postgres
  import opened CommitmentsTable

  /** The trigger let the values through when the table was t. */
  predicate PassedTrigger(t: Table, v: Values) {
    var max := CurrentMax(t.rows, v.channel);
    max.None? || max.value <= v.amount
  }

  /** The row is written when the table has become a later one. */
  function WriteLate(later: Table, v: Values, now: int): Table {
    Table(later.rows + [Row(later.nextId, v.channel, v.amount, v.signature, v.signerKey, now, v.valid)],
          later.nextId + 1)
  }

  /** The rows other sessions committed in between. */
  function Between(t: Table, later: Table): seq<Row>
    requires t.rows <= later.rows
  {
    later.rows[|t.rows|..]
  }

  /** A row that passed the trigger on an earlier table and finds its pair free on
      the later one keeps the order exactly when no session committed a higher
      amount for the channel in between. */
  lemma LateWriteKeepsOrder(t: Table, later: Table, v: Values, now: int)
    requires TableInv(t) && TableInv(later) && t.rows <= later.rows
    requires 0 < v.amount < NUMERIC_LIMIT && |v.signerKey| == 32
    requires PassedTrigger(t, v) && Find(later.rows, v.channel, v.amount).None?
    ensures TableInv(WriteLate(later, v, now)) <==>
      forall r | r in Between(t, later) && r.channel == v.channel :: r.amount < v.amount
  {
    if forall r | r in Between(t, later) && r.channel == v.channel :: r.amount < v.amount {
      forall q | q in later.rows && q.channel == v.channel ensures q.amount < v.amount {
        EarlierRowsAreLower(t, later, v, q);
      }
      LowerRowsKeepOrder(later, v, now);
    } else {
      var r :| r in Between(t, later) && r.channel == v.channel && r.amount >= v.amount;
      assert r in later.rows;
      HigherRowBreaksOrder(later, v, now, r);
    }
  }

  lemma EarlierRowsAreLower(t: Table, later: Table, v: Values, q: Row)
    requires t.rows <= later.rows && PassedTrigger(t, v) && Find(later.rows, v.channel, v.amount).None?
    requires q in later.rows && q.channel == v.channel
    requires q in Between(t, later) ==> q.amount < v.amount
    ensures q.amount < v.amount
  {
    CurrentMaxIsMax(t.rows, v.channel);
    FindFinds(later.rows, v.channel, v.amount);
    assert later.rows == t.rows + Between(t, later);
  }

  lemma LowerRowsKeepOrder(later: Table, v: Values, now: int)
    requires TableInv(later) && 0 < v.amount < NUMERIC_LIMIT && |v.signerKey| == 32
    requires forall q | q in later.rows && q.channel == v.channel :: q.amount < v.amount
    ensures TableInv(WriteLate(later, v, now))
  {
    AppendKeepsTable(later, Row(later.nextId, v.channel, v.amount, v.signature, v.signerKey, now, v.valid));
  }

  lemma HigherRowBreaksOrder(later: Table, v: Values, now: int, r: Row)
    requires r in later.rows && r.channel == v.channel && r.amount >= v.amount
    ensures !TableInv(WriteLate(later, v, now))
  {
    var i :| 0 <= i < |later.rows| && later.rows[i] == r;
    var rows := WriteLate(later, v, now).rows;
    assert rows[i] == r && rows[|later.rows|].amount == v.amount;
  }

  /** Two overlapping sessions on an empty table: 7 passes the trigger, 10 is
      committed, 7 is written, and the channel's rows go down. */
  lemma OverlapCanLowerTheAmount(key: Bytes)
    requires |key| == 32
    ensures var seven, ten := Values("c", 7, [], key, true), Values("c", 10, [], key, true);
      var later := Insert(Table([], 1), ten, 0).0;
      && PassedTrigger(Table([], 1), seven) && TableInv(later) && Find(later.rows, "c", 7).None?
      && !TableInv(WriteLate(later, seven, 1))
  {
    var seven, ten := Values("c", 7, [], key, true), Values("c", 10, [], key, true);
    InsertKeepsTable(Table([], 1), ten, 0);
    var later := Insert(Table([], 1), ten, 0).0;
    var rows := WriteLate(later, seven, 1).rows;
    assert rows[0].amount == 10 && rows[1].amount == 7 && rows[0].channel == rows[1].channel;
  }
}
