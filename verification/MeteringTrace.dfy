/** Any number of requests in the metering handler at once, step by step, with
    every step free to fail and every handler free to be cut off. */
module MeteringTrace {
  import opened Wrappers
  import opened Bytes
  import opened Postgres
  import opened Pricing
  import opened Metering

  /** Where one request's handler stands. */
  datatype Handler =
    | Arrived(info: Option<RequestInfo>, units: uint64)
    | Known(who: RequestInfo, units: uint64)
    | AtLedger(who: RequestInfo, units: uint64, ledger: uint32)
    | Priced(who: RequestInfo, units: uint64, ledger: uint32, priced: PricedRequest)
    | ReadyToRecord(req: RecordedRequest)
    | Recorded(req: RecordedRequest)
    | Served
    | Rejected

  /** What other parties see: a row written, the wrapped handler called, an error
      response sent. */
  datatype Effect = WroteRow(id: nat, req: RecordedRequest) | CalledNext(id: nat) | SentError(id: nat)

  /** Who a request is from and how much it asks for, as the middleware in front saw it. */
  datatype Arrival = Arrival(info: Option<RequestInfo>, units: uint64)

  datatype World = World(
    rows: seq<Row>, arrivals: map<nat, Arrival>, handlers: map<nat, Handler>, trace: seq<Effect>)

  datatype Event =
    | Arrive(id: nat, info: Option<RequestInfo>, units: uint64)
    | CheckInfo(id: nat)
    | FetchLedger(id: nat, ledger: Option<uint32>)
    | PriceIt(id: nat)
    | NewRequestID(id: nat, requestID: Option<Hash>)
    | RecordIt(id: nat, fault: Fault)
    | CallNext(id: nat)
    | CutOff(id: nat)

  function Reject(w: World, id: nat): World {
    w.(handlers := w.handlers[id := Rejected], trace := w.trace + [SentError(id)])
  }

  function Move(w: World, id: nat, h: Handler): World {
    w.(handlers := w.handlers[id := h])
  }

  /** One step of handler h. An event that does not fit changes nothing. */
  function HandlerStep(sha: Sha, cfg: Config, w: World, h: Handler, e: Event): World
    requires NoNil(cfg.catalog.versions)
  {
    match (e, h)
    case (CheckInfo(id), Arrived(info, units)) =>
      if info.None? || Validate(info.value).Some? then Reject(w, id) else Move(w, id, Known(info.value, units))
    case (FetchLedger(id, ledger), Known(who, units)) =>
      if ledger.None? then Reject(w, id) else Move(w, id, AtLedger(who, units, ledger.value))
    case (PriceIt(id), AtLedger(who, units, ledger)) =>
      var r := Price(cfg.catalog, ledger, cfg.httpMethod, cfg.pathTemplate, units);
      if r.Failure? then Reject(w, id) else Move(w, id, Priced(who, units, ledger, r.value))
    case (NewRequestID(id, requestID), Priced(who, units, ledger, priced)) =>
      if requestID.None? then Reject(w, id)
      else Move(w, id, ReadyToRecord(RequestOf(sha, cfg, who, ledger, units, priced, requestID.value)))
    case (RecordIt(id, fault), ReadyToRecord(req)) =>
      var (rows, ok) := Record(w.rows, req, fault);
      var wrote := if rows != w.rows then [WroteRow(id, req)] else [];
      var w' := w.(rows := rows, trace := w.trace + wrote);
      if ok then Move(w', id, Recorded(req)) else Reject(w', id)
    case (CallNext(id), Recorded(req)) =>
      w.(handlers := w.handlers[id := Served], trace := w.trace + [CalledNext(id)])
    case (CutOff(id), _) => if h.Served? then w else Move(w, id, Rejected)
    case _ => w
  }

  function Step(sha: Sha, cfg: Config, w: World, e: Event): World
    requires NoNil(cfg.catalog.versions)
  {
    if e.Arrive? then
      if e.id in w.handlers then w
      else Move(w.(arrivals := w.arrivals[e.id := Arrival(e.info, e.units)]), e.id, Arrived(e.info, e.units))
    else if e.id !in w.handlers then w
    else HandlerStep(sha, cfg, w, w.handlers[e.id], e)
  }

  function Run(sha: Sha, cfg: Config, w: World, events: seq<Event>): World
    requires NoNil(cfg.catalog.versions)
    decreases |events|
  {
    if events == [] then w else Run(sha, cfg, Step(sha, cfg, w, events[0]), events[1..])
  }

  const START := World([], map[], map[], [])

  // ----- the invariant -----

  /** How many rows a request has had written, and how often it has been served. */
  function RowsWritten(trace: seq<Effect>, id: nat): nat {
    if trace == [] then 0
    else
      var last := trace[|trace| - 1];
      RowsWritten(trace[..|trace| - 1], id) + (if last.WroteRow? && last.id == id then 1 else 0)
  }

  function TimesServed(trace: seq<Effect>, id: nat): nat {
    if trace == [] then 0
    else
      var last := trace[|trace| - 1];
      TimesServed(trace[..|trace| - 1], id) + (if last.CalledNext? && last.id == id then 1 else 0)
  }

  /** A bill that can be checked again: re-running the price of the stored request
      gives its charge and its version, and it is of this route and a valid caller. */
  predicate Reprices(sha: Sha, cfg: Config, req: RecordedRequest)
    requires NoNil(cfg.catalog.versions)
  {
    && Price(cfg.catalog, req.observedLedger, req.httpMethod, req.pathTemplate, req.unitCount)
       == Success(PricedRequest(req.chargedAmount, req.priceVersion))
    && req.endpointHash == Leaf.EndpointHash(sha, req.httpMethod, req.pathTemplate)
    && req.operator == cfg.operator && req.httpMethod == cfg.httpMethod && req.pathTemplate == cfg.pathTemplate
    && Validate(RequestInfo(req.consumer, req.protocol, req.channel)).None?
  }

  /** The caller and the units with which a request arrived. */
  ghost predicate ArrivedAs(w: World, id: nat, who: RequestInfo, units: uint64) {
    id in w.arrivals && w.arrivals[id] == Arrival(Some(who), units)
  }

  /** The row is of this request: its consumer, protocol, channel and units. */
  ghost predicate IsOf(w: World, id: nat, req: RecordedRequest) {
    ArrivedAs(w, id, RequestInfo(req.consumer, req.protocol, req.channel), req.unitCount)
  }

  /** No row of the request was written yet, and it was not served. */
  ghost predicate Unmetered(w: World, id: nat) {
    RowsWritten(w.trace, id) == 0 && TimesServed(w.trace, id) == 0
  }

  ghost predicate HandlerInv(sha: Sha, cfg: Config, w: World, id: nat, h: Handler)
    requires NoNil(cfg.catalog.versions)
  {
    match h
    case Recorded(req) =>
      RowsWritten(w.trace, id) == 1 && TimesServed(w.trace, id) == 0 && RowOf(req) in w.rows
    case Served => RowsWritten(w.trace, id) == 1 && TimesServed(w.trace, id) == 1
    case Rejected => RowsWritten(w.trace, id) <= 1 && TimesServed(w.trace, id) == 0
    case ReadyToRecord(req) => Reprices(sha, cfg, req) && IsOf(w, id, req) && Unmetered(w, id)
    case Known(who, units) => Validate(who).None? && ArrivedAs(w, id, who, units) && Unmetered(w, id)
    case AtLedger(who, units, _) => Validate(who).None? && ArrivedAs(w, id, who, units) && Unmetered(w, id)
    case Priced(who, units, ledger, priced) =>
      Validate(who).None? && ArrivedAs(w, id, who, units) && Unmetered(w, id)
      && Price(cfg.catalog, ledger, cfg.httpMethod, cfg.pathTemplate, units) == Success(priced)
    case Arrived(info, units) => id in w.arrivals && w.arrivals[id] == Arrival(info, units) && Unmetered(w, id)
  }

  ghost predicate UniqueIDs(rows: seq<Row>) {
    forall i, j | 0 <= i < j < |rows| :: rows[i].req.requestID != rows[j].req.requestID
  }

  ghost predicate Inv(sha: Sha, cfg: Config, w: World)
    requires NoNil(cfg.catalog.versions)
  {
    && (forall id | id in w.handlers :: HandlerInv(sha, cfg, w, id, w.handlers[id]))
    && w.arrivals.Keys == w.handlers.Keys
    && (forall id: nat | id !in w.handlers :: Unmetered(w, id))
    && (forall r | r in w.rows :: Reprices(sha, cfg, r.req) && ProtocolChecks(r))
    && UniqueIDs(w.rows)
    && (forall k | 0 <= k < |w.trace| :: EffectInv(w, k))
  }

  /** The wrapped handler is called after exactly one row of the request was written;
      a row written is a row of the table, and of the request it was written for. */
  ghost predicate EffectInv(w: World, k: nat)
    requires k < |w.trace|
  {
    match w.trace[k]
    case CalledNext(id) => RowsWritten(w.trace[..k], id) == 1 && TimesServed(w.trace[..k], id) == 0
    case WroteRow(id, req) => RowOf(req) in w.rows && IsOf(w, id, req)
    case SentError(_) => true
  }

  /** What a step of one handler may change: its own place, rows and effects added. */
  ghost predicate Extends(w: World, w': World, moved: nat) {
    && w.rows <= w'.rows && w.trace <= w'.trace
    && moved in w'.handlers && w'.handlers.Keys == w.handlers.Keys + {moved} == w'.arrivals.Keys
    && (forall id | id in w.arrivals :: id in w'.arrivals && w'.arrivals[id] == w.arrivals[id])
    && (forall id | id in w.handlers && id != moved :: w'.handlers[id] == w.handlers[id])
    && (forall id: nat | id != moved ::
          RowsWritten(w'.trace, id) == RowsWritten(w.trace, id)
          && TimesServed(w'.trace, id) == TimesServed(w.trace, id))
  }

  lemma ExtendKeepsInv(sha: Sha, cfg: Config, w: World, w': World, moved: nat)
    requires NoNil(cfg.catalog.versions) && Inv(sha, cfg, w) && Extends(w, w', moved)
    requires HandlerInv(sha, cfg, w', moved, w'.handlers[moved])
    requires forall r | r in w'.rows && r !in w.rows :: Reprices(sha, cfg, r.req) && ProtocolChecks(r)
    requires UniqueIDs(w'.rows)
    requires forall k | |w.trace| <= k < |w'.trace| :: EffectInv(w', k)
    ensures Inv(sha, cfg, w')
  {
    forall id | id in w'.handlers ensures HandlerInv(sha, cfg, w', id, w'.handlers[id]) {
      if id != moved {
        assert HandlerInv(sha, cfg, w, id, w.handlers[id]);
      }
    }
    forall k | 0 <= k < |w'.trace| ensures EffectInv(w', k) {
      if k < |w.trace| {
        assert EffectInv(w, k) && w'.trace[..k] == w.trace[..k];
      }
    }
  }

  /** A handler that moves on with one effect of its own and leaves the rows alone. */
  lemma EffectKeepsInv(sha: Sha, cfg: Config, w: World, h: Handler, e: Effect)
    requires NoNil(cfg.catalog.versions) && Inv(sha, cfg, w) && e.id in w.handlers && !e.WroteRow?
    requires h == (if e.CalledNext? then Served else Rejected)
    requires TimesServed(w.trace, e.id) == 0
    requires if e.CalledNext? then RowsWritten(w.trace, e.id) == 1 else RowsWritten(w.trace, e.id) <= 1
    ensures Inv(sha, cfg, w.(handlers := w.handlers[e.id := h], trace := w.trace + [e]))
  {
    var w' := w.(handlers := w.handlers[e.id := h], trace := w.trace + [e]);
    EffectExtends(w, w', e);
    ExtendKeepsInv(sha, cfg, w, w', e.id);
  }

  lemma EffectExtends(w: World, w': World, e: Effect)
    requires e.id in w.handlers && e.id in w'.handlers && w.arrivals.Keys == w.handlers.Keys && !e.WroteRow?
    requires TimesServed(w.trace, e.id) == 0 && (e.CalledNext? ==> RowsWritten(w.trace, e.id) == 1)
    requires w' == w.(handlers := w.handlers[e.id := w'.handlers[e.id]], trace := w.trace + [e])
    ensures Extends(w, w', e.id) && EffectInv(w', |w.trace|)
    ensures RowsWritten(w'.trace, e.id) == RowsWritten(w.trace, e.id)
    ensures TimesServed(w'.trace, e.id) == if e.CalledNext? then 1 else 0
  {
    OneMoreEffect(w.trace, e);
    assert w'.trace[..|w.trace|] == w.trace;
  }

  lemma OneMoreEffect(trace: seq<Effect>, e: Effect)
    ensures forall id ::
      RowsWritten(trace + [e], id) == RowsWritten(trace, id) + (if e.WroteRow? && e.id == id then 1 else 0)
    ensures forall id ::
      TimesServed(trace + [e], id) == TimesServed(trace, id) + (if e.CalledNext? && e.id == id then 1 else 0)
  {
    assert (trace + [e])[..|trace|] == trace;
  }

  lemma RecordStepKeepsInv(sha: Sha, cfg: Config, w: World, id: nat, fault: Fault)
    requires NoNil(cfg.catalog.versions) && Inv(sha, cfg, w) && id in w.handlers && w.handlers[id].ReadyToRecord?
    ensures Inv(sha, cfg, Step(sha, cfg, w, RecordIt(id, fault)))
  {
    var req := w.handlers[id].req;
    assert HandlerInv(sha, cfg, w, id, w.handlers[id]);
    var (rows, ok) := Record(w.rows, req, fault);
    var w' := Step(sha, cfg, w, RecordIt(id, fault));
    if rows == w.rows {
      assert w.trace + [] == w.trace;
      EffectKeepsInv(sha, cfg, w, Rejected, SentError(id));
    } else {
      RowStepKeepsInv(sha, cfg, w, id, req, fault);
    }
  }

  lemma RowStepKeepsInv(sha: Sha, cfg: Config, w: World, id: nat, req: RecordedRequest, fault: Fault)
    requires NoNil(cfg.catalog.versions) && Inv(sha, cfg, w) && id in w.handlers && w.handlers[id] == ReadyToRecord(req)
    requires !fault.FailsBefore? && TableAccepts(w.rows, RowOf(req))
    ensures Inv(sha, cfg, Step(sha, cfg, w, RecordIt(id, fault)))
  {
    AppendedIdsDiffer(w.rows, RowOf(req));
    var h := if fault.NoFault? then Recorded(req) else Rejected;
    var after := if fault.NoFault? then [] else [SentError(id)];
    RowStepIs(sha, cfg, w, id, req, fault, h, after);
    WrittenKeepsInv(sha, cfg, w, id, req, h, after);
  }

  lemma RowStepIs(sha: Sha, cfg: Config, w: World, id: nat, req: RecordedRequest, fault: Fault, h: Handler,
                  after: seq<Effect>)
    requires NoNil(cfg.catalog.versions) && id in w.handlers && w.handlers[id] == ReadyToRecord(req)
    requires !fault.FailsBefore? && TableAccepts(w.rows, RowOf(req))
    requires h == if fault.NoFault? then Recorded(req) else Rejected
    requires after == if fault.NoFault? then [] else [SentError(id)]
    ensures Step(sha, cfg, w, RecordIt(id, fault)) ==
      World(w.rows + [RowOf(req)], w.arrivals, w.handlers[id := h], (w.trace + [WroteRow(id, req)]) + after)
  {
    var wrote := w.trace + [WroteRow(id, req)];
    assert wrote + [] == wrote;
  }

  /** A row is written for a request; its handler goes on, or sends an error. */
  lemma WrittenKeepsInv(sha: Sha, cfg: Config, w: World, id: nat, req: RecordedRequest, h: Handler, after: seq<Effect>)
    requires NoNil(cfg.catalog.versions) && Inv(sha, cfg, w) && id in w.handlers && w.handlers[id] == ReadyToRecord(req)
    requires (h == Recorded(req) && after == []) || (h == Rejected && after == [SentError(id)])
    requires ProtocolChecks(RowOf(req))
    requires UniqueIDs(w.rows + [RowOf(req)])
    ensures Inv(sha, cfg, World(w.rows + [RowOf(req)], w.arrivals, w.handlers[id := h],
                                (w.trace + [WroteRow(id, req)]) + after))
  {
    assert HandlerInv(sha, cfg, w, id, w.handlers[id]);
    var w' := World(w.rows + [RowOf(req)], w.arrivals, w.handlers[id := h], (w.trace + [WroteRow(id, req)]) + after);
    WrittenExtends(w, w', id, req, after);
    ExtendKeepsInv(sha, cfg, w, w', id);
  }

  lemma WrittenExtends(w: World, w': World, id: nat, req: RecordedRequest, after: seq<Effect>)
    requires id in w.handlers && w.arrivals.Keys == w.handlers.Keys && (after == [] || after == [SentError(id)])
    requires w'.rows == w.rows + [RowOf(req)] && w'.trace == (w.trace + [WroteRow(id, req)]) + after
    requires w'.arrivals == w.arrivals && id in w'.handlers && w'.handlers == w.handlers[id := w'.handlers[id]]
    ensures Extends(w, w', id) && RowOf(req) in w'.rows
    ensures RowsWritten(w'.trace, id) == RowsWritten(w.trace, id) + 1
    ensures TimesServed(w'.trace, id) == TimesServed(w.trace, id)
  {
    var wrote := w.trace + [WroteRow(id, req)];
    OneMoreEffect(w.trace, WroteRow(id, req));
    OneMoreEffect(wrote, SentError(id));
    assert wrote + [] == wrote;
    assert w'.rows[|w.rows|] == RowOf(req);
  }

  lemma AppendedIdsDiffer(rows: seq<Row>, row: Row)
    requires UniqueIDs(rows) && forall r | r in rows :: r.req.requestID != row.req.requestID
    ensures UniqueIDs(rows + [row])
  {
  }

  lemma StepKeepsInv(sha: Sha, cfg: Config, w: World, e: Event)
    requires NoNil(cfg.catalog.versions) && Inv(sha, cfg, w)
    ensures Inv(sha, cfg, Step(sha, cfg, w, e))
  {
    var w' := Step(sha, cfg, w, e);
    if w' != w {
      if e.RecordIt? {
        RecordStepKeepsInv(sha, cfg, w, e.id, e.fault);
      } else if e.CallNext? {
        NextStepKeepsInv(sha, cfg, w, e.id);
      } else {
        OtherStepKeepsInv(sha, cfg, w, e);
      }
    }
  }

  lemma NextStepKeepsInv(sha: Sha, cfg: Config, w: World, id: nat)
    requires NoNil(cfg.catalog.versions) && Inv(sha, cfg, w) && id in w.handlers && w.handlers[id].Recorded?
    ensures Inv(sha, cfg, Step(sha, cfg, w, CallNext(id)))
  {
    assert HandlerInv(sha, cfg, w, id, w.handlers[id]);
    EffectKeepsInv(sha, cfg, w, Served, CalledNext(id));
  }

  /** The steps that neither write a row nor serve the request. */
  lemma OtherStepKeepsInv(sha: Sha, cfg: Config, w: World, e: Event)
    requires NoNil(cfg.catalog.versions) && Inv(sha, cfg, w) && !e.RecordIt? && !e.CallNext?
    requires Step(sha, cfg, w, e) != w
    ensures Inv(sha, cfg, Step(sha, cfg, w, e))
  {
    if e.Arrive? {
      ExtendKeepsInv(sha, cfg, w, Step(sha, cfg, w, e), e.id);
    } else {
      assert HandlerInv(sha, cfg, w, e.id, w.handlers[e.id]);
      var w' := Step(sha, cfg, w, e);
      if w' == Reject(w, e.id) {
        RejectKeepsInv(sha, cfg, w, e.id);
      } else {
        MoveKeepsInv(sha, cfg, w, e.id, w'.handlers[e.id]);
      }
    }
  }

  lemma MoveKeepsInv(sha: Sha, cfg: Config, w: World, id: nat, h: Handler)
    requires NoNil(cfg.catalog.versions) && Inv(sha, cfg, w) && id in w.handlers
    requires HandlerInv(sha, cfg, Move(w, id, h), id, h)
    ensures Inv(sha, cfg, Move(w, id, h))
  {
    ExtendKeepsInv(sha, cfg, w, Move(w, id, h), id);
  }

  lemma RejectKeepsInv(sha: Sha, cfg: Config, w: World, id: nat)
    requires NoNil(cfg.catalog.versions) && Inv(sha, cfg, w) && id in w.handlers
    requires RowsWritten(w.trace, id) <= 1 && TimesServed(w.trace, id) == 0
    ensures Inv(sha, cfg, Reject(w, id))
  {
    EffectKeepsInv(sha, cfg, w, Rejected, SentError(id));
  }

  lemma {:induction false} RunKeepsInv(sha: Sha, cfg: Config, w: World, events: seq<Event>)
    requires NoNil(cfg.catalog.versions) && Inv(sha, cfg, w)
    ensures Inv(sha, cfg, Run(sha, cfg, w, events))
    decreases |events|
  {
    if events != [] {
      StepKeepsInv(sha, cfg, w, events[0]);
      RunKeepsInv(sha, cfg, Step(sha, cfg, w, events[0]), events[1..]);
    }
  }

  /** The first arrival under an id; the id is taken from then on. */
  function ArrivalOf(events: seq<Event>, id: nat): Option<Arrival> {
    if events == [] then None
    else if events[0].Arrive? && events[0].id == id then Some(Arrival(events[0].info, events[0].units))
    else ArrivalOf(events[1..], id)
  }

  lemma {:induction false} ArrivalsAreFirst(sha: Sha, cfg: Config, w: World, events: seq<Event>, id: nat)
    requires NoNil(cfg.catalog.versions) && w.arrivals.Keys == w.handlers.Keys
    ensures var w' := Run(sha, cfg, w, events);
      id in w'.arrivals ==>
        ArrivalOf(events, id) == Some(w'.arrivals[id]) || (id in w.arrivals && w'.arrivals[id] == w.arrivals[id])
    ensures var w' := Run(sha, cfg, w, events);
      id in w.arrivals ==> (id in w'.arrivals && w'.arrivals[id] == w.arrivals[id])
    decreases |events|
  {
    if events != [] {
      ArrivalsAreFirst(sha, cfg, Step(sha, cfg, w, events[0]), events[1..], id);
    }
  }

  /** The one place a count of one stands for. */
  lemma {:induction false} OnlyWrite(trace: seq<Effect>, id: nat) returns (j: nat)
    requires RowsWritten(trace, id) == 1
    ensures j < |trace| && trace[j].WroteRow? && trace[j].id == id
    ensures forall i | 0 <= i < |trace| && trace[i].WroteRow? && trace[i].id == id :: i == j
  {
    var n := |trace| - 1;
    if trace[n].WroteRow? && trace[n].id == id {
      j := n;
      NoWrite(trace[..n], id);
      assert forall i | 0 <= i < n :: trace[..n][i] == trace[i];
    } else {
      j := OnlyWrite(trace[..n], id);
      assert forall i | 0 <= i < n :: trace[..n][i] == trace[i];
    }
  }

  lemma {:induction false} NoWrite(trace: seq<Effect>, id: nat)
    requires RowsWritten(trace, id) == 0
    ensures forall i | 0 <= i < |trace| :: !(trace[i].WroteRow? && trace[i].id == id)
  {
    if trace != [] {
      var n := |trace| - 1;
      NoWrite(trace[..n], id);
      assert forall i | 0 <= i < n :: trace[..n][i] == trace[i];
    }
  }

  /** Effect j is the one row written, before effect k, for the request effect k is
      about. The row is in the table, and it has the consumer, the protocol, the channel
      and the units with which that request arrived. */
  ghost predicate IsItsRow(w: World, events: seq<Event>, j: nat, k: nat)
    requires j < k < |w.trace|
  {
    var effect, id := w.trace[j], w.trace[k].id;
    && effect.WroteRow? && effect.id == id
    && (forall i | 0 <= i < k && w.trace[i].WroteRow? && w.trace[i].id == id :: i == j)
    && RowOf(effect.req) in w.rows
    && ArrivalOf(events, id) == Some(Arrival(
         Some(RequestInfo(effect.req.consumer, effect.req.protocol, effect.req.channel)), effect.req.unitCount))
  }

  /** Nothing is served unmetered: after any run, every call of the wrapped handler comes
      after exactly one row of that very request, which is in the table, and is the only
      call for it; a request whose handler ended in an error was never served. */
  lemma ServedAfterOneRecord(sha: Sha, cfg: Config, events: seq<Event>)
    requires NoNil(cfg.catalog.versions)
    ensures var w := Run(sha, cfg, START, events);
      && (forall k | 0 <= k < |w.trace| && w.trace[k].CalledNext? :: exists j | 0 <= j < k :: IsItsRow(w, events, j, k))
      && (forall k | 0 <= k < |w.trace| && w.trace[k].CalledNext? ::
            RowsWritten(w.trace[..k], w.trace[k].id) == 1 && TimesServed(w.trace[..k], w.trace[k].id) == 0)
      && (forall id | id in w.handlers && w.handlers[id].Rejected? :: TimesServed(w.trace, id) == 0)
  {
    var w := Run(sha, cfg, START, events);
    RunKeepsInv(sha, cfg, START, events);
    forall k | 0 <= k < |w.trace| && w.trace[k].CalledNext?
      ensures RowsWritten(w.trace[..k], w.trace[k].id) == 1 && TimesServed(w.trace[..k], w.trace[k].id) == 0
      ensures exists j | 0 <= j < k :: IsItsRow(w, events, j, k)
    {
      assert EffectInv(w, k);
      var j := RowBefore(sha, cfg, events, k);
    }
    forall id | id in w.handlers && w.handlers[id].Rejected? ensures TimesServed(w.trace, id) == 0 {
      assert HandlerInv(sha, cfg, w, id, w.handlers[id]);
    }
  }

  lemma RowBefore(sha: Sha, cfg: Config, events: seq<Event>, k: nat) returns (j: nat)
    requires NoNil(cfg.catalog.versions) && Inv(sha, cfg, Run(sha, cfg, START, events))
    requires var w := Run(sha, cfg, START, events);
      k < |w.trace| && w.trace[k].CalledNext? && RowsWritten(w.trace[..k], w.trace[k].id) == 1
    ensures j < k && IsItsRow(Run(sha, cfg, START, events), events, j, k)
  {
    var w := Run(sha, cfg, START, events);
    var id := w.trace[k].id;
    j := OnlyWrite(w.trace[..k], id);
    assert forall i | 0 <= i < k :: w.trace[..k][i] == w.trace[i];
    assert EffectInv(w, j);
    ArrivalsAreFirst(sha, cfg, START, events, id);
  }

  /** The stored bill is reproducible: after any run, pricing a stored row's ledger,
      method, path and units again gives its charge and its version, its endpoint hash
      is that of its method and path, its caller is valid, and no request id occurs
      twice. */
  lemma StoredRowsReprice(sha: Sha, cfg: Config, events: seq<Event>)
    requires NoNil(cfg.catalog.versions)
    ensures var w := Run(sha, cfg, START, events);
      && (forall r | r in w.rows :: Reprices(sha, cfg, r.req))
      && UniqueIDs(w.rows)
  {
    RunKeepsInv(sha, cfg, START, events);
  }

  /** A handler can be cut off between any two steps before it is served. It changes no
      row, and the request is not served afterwards, whatever happens. */
  lemma CutOffIsNeverServed(sha: Sha, cfg: Config, w: World, id: nat, later: seq<Event>)
    requires NoNil(cfg.catalog.versions) && id in w.handlers && !w.handlers[id].Served?
    ensures Step(sha, cfg, w, CutOff(id)).rows == w.rows
    ensures var w' := Run(sha, cfg, Step(sha, cfg, w, CutOff(id)), later);
      id in w'.handlers && w'.handlers[id].Rejected?
  {
    RejectedForGood(sha, cfg, Step(sha, cfg, w, CutOff(id)), id, later);
  }

  lemma {:induction false} RejectedForGood(sha: Sha, cfg: Config, w: World, id: nat, later: seq<Event>)
    requires NoNil(cfg.catalog.versions) && id in w.handlers && w.handlers[id].Rejected?
    ensures var w' := Run(sha, cfg, w, later); id in w'.handlers && w'.handlers[id].Rejected?
    decreases |later|
  {
    if later != [] {
      RejectedForGood(sha, cfg, Step(sha, cfg, w, later[0]), id, later[1..]);
    }
  }

  // ----- the uninterrupted handler is a run of its steps -----

  /** Where a request ends up: the rows, and its one answer, which is the last thing that
      happened: the wrapped handler was called, or an error response was sent. */
  ghost predicate Ends(w: World, id: nat, rows: seq<Row>, served: bool) {
    && w.rows == rows && id in w.handlers && w.handlers[id] == (if served then Served else Rejected)
    && w.trace != [] && w.trace[|w.trace| - 1] == (if served then CalledNext(id) else SentError(id))
  }

  ghost predicate AllOf(events: seq<Event>, id: nat) {
    forall e | e in events :: e.id == id
  }

  /** The steps that are left, from the last two back to the first. */
  function StepsFromReady(id: nat, fault: Fault): (s: seq<Event>)
    ensures AllOf(s, id)
  {
    [RecordIt(id, fault)] + [CallNext(id)]
  }

  function StepsFromPriced(id: nat, requestID: Option<Hash>, fault: Fault): (s: seq<Event>)
    ensures AllOf(s, id)
  {
    [NewRequestID(id, requestID)] + StepsFromReady(id, fault)
  }

  function StepsFromLedger(id: nat, requestID: Option<Hash>, fault: Fault): (s: seq<Event>)
    ensures AllOf(s, id)
  {
    [PriceIt(id)] + StepsFromPriced(id, requestID, fault)
  }

  function StepsFromKnown(id: nat, ledger: Option<uint32>, requestID: Option<Hash>, fault: Fault): (s: seq<Event>)
    ensures AllOf(s, id)
  {
    [FetchLedger(id, ledger)] + StepsFromLedger(id, requestID, fault)
  }

  function StepsFromArrival(id: nat, ledger: Option<uint32>, requestID: Option<Hash>, fault: Fault): seq<Event> {
    [CheckInfo(id)] + StepsFromKnown(id, ledger, requestID, fault)
  }

  function HandlerSteps(id: nat, info: Option<RequestInfo>, units: uint64, ledger: Option<uint32>,
                        requestID: Option<Hash>, fault: Fault): seq<Event>
  {
    [Arrive(id, info, units)] + StepsFromArrival(id, ledger, requestID, fault)
  }

  lemma RunOne(sha: Sha, cfg: Config, w: World, e: Event, rest: seq<Event>)
    requires NoNil(cfg.catalog.versions)
    ensures Run(sha, cfg, w, [e] + rest) == Run(sha, cfg, Step(sha, cfg, w, e), rest)
  {
    assert ([e] + rest)[1..] == rest;
  }

  lemma {:induction false} RejectedStays(sha: Sha, cfg: Config, w: World, id: nat, events: seq<Event>)
    requires NoNil(cfg.catalog.versions) && id in w.handlers && w.handlers[id].Rejected? && AllOf(events, id)
    requires w.trace != [] && w.trace[|w.trace| - 1] == SentError(id)
    ensures Ends(Run(sha, cfg, w, events), id, w.rows, false)
    decreases |events|
  {
    if events != [] {
      var w' := Step(sha, cfg, w, events[0]);
      assert w'.rows == w.rows && w'.trace == w.trace && id in w'.handlers && w'.handlers[id].Rejected?;
      RejectedStays(sha, cfg, w', id, events[1..]);
    }
  }

  lemma FromReady(sha: Sha, cfg: Config, w: World, id: nat, req: RecordedRequest, fault: Fault)
    requires NoNil(cfg.catalog.versions) && id in w.handlers && w.handlers[id] == ReadyToRecord(req)
    ensures var (rows, ok) := Record(w.rows, req, fault);
      Ends(Run(sha, cfg, w, StepsFromReady(id, fault)), id, rows, ok)
  {
    RunOne(sha, cfg, w, RecordIt(id, fault), [CallNext(id)]);
    assert [CallNext(id)] == [CallNext(id)] + [];
    RunOne(sha, cfg, Step(sha, cfg, w, RecordIt(id, fault)), CallNext(id), []);
  }

  lemma FromPriced(sha: Sha, cfg: Config, w: World, id: nat, who: RequestInfo, units: uint64, ledger: uint32,
                   priced: PricedRequest, requestID: Option<Hash>, fault: Fault)
    requires NoNil(cfg.catalog.versions) && id in w.handlers && w.handlers[id] == Priced(who, units, ledger, priced)
    ensures var (rows, served) := if requestID.None? then (w.rows, false)
        else Record(w.rows, RequestOf(sha, cfg, who, ledger, units, priced, requestID.value), fault);
      Ends(Run(sha, cfg, w, StepsFromPriced(id, requestID, fault)), id, rows, served)
  {
    RunOne(sha, cfg, w, NewRequestID(id, requestID), StepsFromReady(id, fault));
    var w' := Step(sha, cfg, w, NewRequestID(id, requestID));
    if requestID.None? {
      RejectedStays(sha, cfg, w', id, StepsFromReady(id, fault));
    } else {
      FromReady(sha, cfg, w', id, RequestOf(sha, cfg, who, ledger, units, priced, requestID.value), fault);
    }
  }

  lemma FromLedger(sha: Sha, cfg: Config, w: World, id: nat, who: RequestInfo, units: uint64, ledger: uint32,
                   requestID: Option<Hash>, fault: Fault)
    requires NoNil(cfg.catalog.versions) && id in w.handlers && w.handlers[id] == AtLedger(who, units, ledger)
    requires Validate(who).None?
    ensures var (rows, served) := ServeAlone(sha, cfg, w.rows, Some(who), Some(ledger), units, requestID, fault);
      Ends(Run(sha, cfg, w, StepsFromLedger(id, requestID, fault)), id, rows, served)
  {
    RunOne(sha, cfg, w, PriceIt(id), StepsFromPriced(id, requestID, fault));
    var w' := Step(sha, cfg, w, PriceIt(id));
    var r := Price(cfg.catalog, ledger, cfg.httpMethod, cfg.pathTemplate, units);
    if r.Failure? {
      RejectedStays(sha, cfg, w', id, StepsFromPriced(id, requestID, fault));
    } else {
      FromPriced(sha, cfg, w', id, who, units, ledger, r.value, requestID, fault);
    }
  }

  lemma FromKnown(sha: Sha, cfg: Config, w: World, id: nat, who: RequestInfo, units: uint64, ledger: Option<uint32>,
                  requestID: Option<Hash>, fault: Fault)
    requires NoNil(cfg.catalog.versions) && id in w.handlers && w.handlers[id] == Known(who, units)
    requires Validate(who).None?
    ensures var (rows, served) := ServeAlone(sha, cfg, w.rows, Some(who), ledger, units, requestID, fault);
      Ends(Run(sha, cfg, w, StepsFromKnown(id, ledger, requestID, fault)), id, rows, served)
  {
    RunOne(sha, cfg, w, FetchLedger(id, ledger), StepsFromLedger(id, requestID, fault));
    var w' := Step(sha, cfg, w, FetchLedger(id, ledger));
    if ledger.None? {
      RejectedStays(sha, cfg, w', id, StepsFromLedger(id, requestID, fault));
    } else {
      FromLedger(sha, cfg, w', id, who, units, ledger.value, requestID, fault);
    }
  }

  lemma FromArrival(sha: Sha, cfg: Config, w: World, id: nat, info: Option<RequestInfo>, units: uint64,
                    ledger: Option<uint32>, requestID: Option<Hash>, fault: Fault)
    requires NoNil(cfg.catalog.versions) && id in w.handlers && w.handlers[id] == Arrived(info, units)
    ensures var (rows, served) := ServeAlone(sha, cfg, w.rows, info, ledger, units, requestID, fault);
      Ends(Run(sha, cfg, w, StepsFromArrival(id, ledger, requestID, fault)), id, rows, served)
  {
    RunOne(sha, cfg, w, CheckInfo(id), StepsFromKnown(id, ledger, requestID, fault));
    var w' := Step(sha, cfg, w, CheckInfo(id));
    if info.None? || Validate(info.value).Some? {
      RejectedStays(sha, cfg, w', id, StepsFromKnown(id, ledger, requestID, fault));
    } else {
      FromKnown(sha, cfg, w', id, info.value, units, ledger, requestID, fault);
    }
  }

  /** One handler that nothing interrupts does what its seven steps do: the same rows,
      and it is served exactly when ServeAlone says the wrapped handler is called. */
  lemma ServeIsRun(sha: Sha, cfg: Config, w: World, id: nat, info: Option<RequestInfo>, ledger: Option<uint32>,
                   units: uint64, requestID: Option<Hash>, fault: Fault)
    requires NoNil(cfg.catalog.versions) && id !in w.handlers
    ensures var (rows, served) := ServeAlone(sha, cfg, w.rows, info, ledger, units, requestID, fault);
      Ends(Run(sha, cfg, w, HandlerSteps(id, info, units, ledger, requestID, fault)), id, rows, served)
  {
    RunOne(sha, cfg, w, Arrive(id, info, units), StepsFromArrival(id, ledger, requestID, fault));
    FromArrival(sha, cfg, Step(sha, cfg, w, Arrive(id, info, units)), id, info, units, ledger, requestID, fault);
  }
}
