/** The metering handler: it prices and records a request before it serves it. */
module Metering {
  import opened Wrappers
  import opened Bytes
  import opened Postgres
  import opened Schedules
  import opened Pricing
  import Leaf

  const PROTOCOL_X402 := "x402"
  const PROTOCOL_MPP_CHARGE := "mpp_charge"
  const PROTOCOL_MPP_SESSION := "mpp_session"

  datatype RequestInfo = RequestInfo(consumer: string, protocol: string, channel: string)

  datatype InfoError = EmptyConsumer | UnknownProtocol | ChannelMismatch

  /** RequestInfo.Validate; None is a nil error. */
  function Validate(info: RequestInfo): Option<InfoError> {
    if info.consumer == "" then Some(EmptyConsumer)
    else if !(info.protocol == PROTOCOL_X402 || info.protocol == PROTOCOL_MPP_CHARGE
              || info.protocol == PROTOCOL_MPP_SESSION) then Some(UnknownProtocol)
    else
      var hasChannel, isSession := info.channel != "", info.protocol == PROTOCOL_MPP_SESSION;
      if hasChannel != isSession then Some(ChannelMismatch) else None
  }

  datatype Config = Config(operator: string, httpMethod: string, pathTemplate: string, catalog: Catalog)

  datatype RecordedRequest = RecordedRequest(
    requestID: Hash,
    operator: string,
    consumer: string,
    endpointHash: Hash,
    httpMethod: string,
    pathTemplate: string,
    unitCount: uint64,
    priceVersion: uint32,
    chargedAmount: int,
    protocol: string,
    channel: string,
    observedLedger: uint32)

  /** Why a caller is refused: the first of the three checks that fails. */
  lemma ValidateErrors(info: RequestInfo)
    ensures var known := info.protocol in {"x402", "mpp_charge", "mpp_session"};
      var matched := info.channel != "" <==> info.protocol == "mpp_session";
      && (Validate(info) == Some(EmptyConsumer) <==> info.consumer == "")
      && (Validate(info) == Some(UnknownProtocol) <==> info.consumer != "" && !known)
      && (Validate(info) == Some(ChannelMismatch) <==> info.consumer != "" && known && !matched)
  {
  }

  // ----- the requests table -----

  /** A row; the empty channel is stored as SQL's NULL. */
  datatype Row = Row(req: RecordedRequest, channel: Option<string>)

  function RowOf(req: RecordedRequest): Row {
    Row(req, if req.channel == "" then None else Some(req.channel))
  }

  /** requests_protocol_check and requests_channel_iff_session. */
  predicate ProtocolChecks(row: Row) {
    && (row.req.protocol == PROTOCOL_X402 || row.req.protocol == PROTOCOL_MPP_CHARGE
        || row.req.protocol == PROTOCOL_MPP_SESSION)
    && (row.req.protocol == PROTOCOL_MPP_SESSION <==> row.channel.Some?)
  }

  /** The table's column types, CHECK constraints and unique request id. */
  predicate TableAccepts(rows: seq<Row>, row: Row) {
    && row.req.unitCount <= MAX_BIGINT && row.req.unitCount > 0
    && row.req.priceVersion <= MAX_INTEGER && row.req.observedLedger <= MAX_INTEGER
    && 0 <= row.req.chargedAmount < NUMERIC_LIMIT
    && ProtocolChecks(row)
    && forall r | r in rows :: r.req.requestID != row.req.requestID
  }

  /** Validate's promise to mirror the table: it accepts a caller exactly when the
      consumer is named and the row would pass the table's protocol and channel
      constraints. */
  lemma ValidateMirrorsTable(info: RequestInfo, req: RecordedRequest)
    requires req.protocol == info.protocol && req.channel == info.channel
    ensures Validate(info).None? <==> info.consumer != "" && ProtocolChecks(RowOf(req))
  {
  }

  /** RecordRequest: the rows after it, and whether it returned nil. */
  function Record(rows: seq<Row>, req: RecordedRequest, fault: Fault): (seq<Row>, bool) {
    if fault.FailsBefore? || !TableAccepts(rows, RowOf(req)) then (rows, false)
    else (rows + [RowOf(req)], fault.NoFault?)
  }

  function RequestOf(sha: Sha, cfg: Config, info: RequestInfo, ledger: uint32, units: uint64,
                     priced: PricedRequest, id: Hash): RecordedRequest
  {
    RecordedRequest(id, cfg.operator, info.consumer, Leaf.EndpointHash(sha, cfg.httpMethod, cfg.pathTemplate),
                    cfg.httpMethod, cfg.pathTemplate, units, priced.priceVersion, priced.chargedAmount,
                    info.protocol, info.channel, ledger)
  }

  /** One request handled without interruption: the rows afterwards, and whether the
      wrapped handler was called. The ledger and the request id are None when fetching
      or generating them failed. */
  function ServeAlone(sha: Sha, cfg: Config, rows: seq<Row>, info: Option<RequestInfo>, ledger: Option<uint32>,
                      units: uint64, id: Option<Hash>, fault: Fault): (seq<Row>, bool)
    requires NoNil(cfg.catalog.versions)
  {
    if info.None? || Validate(info.value).Some? || ledger.None? then (rows, false)
    else
      match Price(cfg.catalog, ledger.value, cfg.httpMethod, cfg.pathTemplate, units)
      case Failure(_) => (rows, false)
      case Success(priced) =>
        if id.None? then (rows, false)
        else Record(rows, RequestOf(sha, cfg, info.value, ledger.value, units, priced, id.value), fault)
  }

  /** The wrapped handler is called exactly when the caller is known and valid, the
      ledger is known, the endpoint has a price there, a request id was generated, and
      the table admits the row without a fault; and then that row is appended. */
  lemma ServedExactlyWhen(sha: Sha, cfg: Config, rows: seq<Row>, info: Option<RequestInfo>, ledger: Option<uint32>,
                          units: uint64, id: Option<Hash>, fault: Fault)
    requires NoNil(cfg.catalog.versions)
    ensures var (rows', calledNext) := ServeAlone(sha, cfg, rows, info, ledger, units, id, fault);
      && (calledNext <==>
            fault.NoFault?
            && exists row :: IsRowFor(sha, cfg, row, info, ledger, units, id) && TableAccepts(rows, row))
      && (calledNext ==>
            |rows'| == |rows| + 1 && rows'[..|rows|] == rows
            && IsRowFor(sha, cfg, rows'[|rows|], info, ledger, units, id))
  {
    var (rows', calledNext) := ServeAlone(sha, cfg, rows, info, ledger, units, id, fault);
    if calledNext {
      assert IsRowFor(sha, cfg, rows'[|rows|], info, ledger, units, id);
    }
    if row :| IsRowFor(sha, cfg, row, info, ledger, units, id) && TableAccepts(rows, row) && fault.NoFault? {
      var priced := Price(cfg.catalog, ledger.value, cfg.httpMethod, cfg.pathTemplate, units).value;
      assert row == RowOf(RequestOf(sha, cfg, info.value, ledger.value, units, priced, id.value));
    }
  }

  /** A request that is not served leaves no row, except that a row whose insert took
      effect stays when only the reply was lost; the lost reply changes nothing else. */
  lemma UnservedLeavesNoRow(sha: Sha, cfg: Config, rows: seq<Row>, info: Option<RequestInfo>, ledger: Option<uint32>,
                            units: uint64, id: Option<Hash>, fault: Fault)
    requires NoNil(cfg.catalog.versions)
    ensures var (rows', served) := ServeAlone(sha, cfg, rows, info, ledger, units, id, fault);
      && (!served && fault != LostReply ==> rows' == rows)
      && (fault == LostReply ==> rows' == ServeAlone(sha, cfg, rows, info, ledger, units, id, NoFault).0)
  {
  }

  /** The row a request must leave: every column from where it belongs. */
  ghost predicate IsRowFor(sha: Sha, cfg: Config, row: Row, info: Option<RequestInfo>, ledger: Option<uint32>,
                           units: uint64, id: Option<Hash>)
    requires NoNil(cfg.catalog.versions)
  {
    && info.Some? && Validate(info.value).None? && ledger.Some? && id.Some?
    && row.req.requestID == id.value
    && row.req.operator == cfg.operator && row.req.consumer == info.value.consumer
    && row.req.endpointHash == Leaf.EndpointHash(sha, cfg.httpMethod, cfg.pathTemplate)
    && row.req.httpMethod == cfg.httpMethod && row.req.pathTemplate == cfg.pathTemplate
    && row.req.unitCount == units && row.req.observedLedger == ledger.value
    && Price(cfg.catalog, ledger.value, cfg.httpMethod, cfg.pathTemplate, units)
       == Success(PricedRequest(row.req.chargedAmount, row.req.priceVersion))
    && row.req.protocol == info.value.protocol && row.req.channel == info.value.channel
    && row.channel == (if info.value.channel == "" then None else Some(info.value.channel))
  }

  /** A rule's key and the endpoint hash's preimage are meant to be one identity. They
      are the same string exactly when the method is in upper case. */
  lemma EndpointKeyAgrees(httpMethod: string, pathTemplate: string)
    ensures Key(ToUpper(httpMethod), pathTemplate) == httpMethod + " " + pathTemplate
      <==> ToUpper(httpMethod) == httpMethod
  {
    var key, preimage := Key(ToUpper(httpMethod), pathTemplate), httpMethod + " " + pathTemplate;
    assert key[..|httpMethod|] == ToUpper(httpMethod) && preimage[..|httpMethod|] == httpMethod;
  }

  /** A method in lower case is priced as the one in upper case, but hashed apart. */
  lemma LowerCaseIsHashedApart(s: Schedule, pathTemplate: string)
    ensures Lookup(s, "get", pathTemplate) == Lookup(s, "GET", pathTemplate)
    ensures Leaf.EndpointBytes("get", pathTemplate) != Leaf.EndpointBytes("GET", pathTemplate)
    ensures Key(ToUpper("get"), pathTemplate) != "get" + " " + pathTemplate
  {
    assert ToUpper("get") == "GET" == ToUpper("GET");
    assert Leaf.EndpointBytes("get", pathTemplate)[0] == 0x67 && Leaf.EndpointBytes("GET", pathTemplate)[0] == 0x47;
    EndpointKeyAgrees("get", pathTemplate);
  }

  /** An endpoint hash stands for its endpoint: for methods without a space, equal hashes
      mean the same method and path, or two different byte strings with one SHA-256. */
  lemma EndpointHashBinds(sha: Sha, m1: string, p1: string, m2: string, p2: string)
    requires IsAscii(m1) && IsAscii(p1) && IsAscii(m2) && IsAscii(p2) && NoSpace(m1) && NoSpace(m2)
    ensures var (b1, b2) := (Leaf.EndpointBytes(m1, p1), Leaf.EndpointBytes(m2, p2));
      Leaf.EndpointHash(sha, m1, p1) == Leaf.EndpointHash(sha, m2, p2) <==>
        (m1 == m2 && p1 == p2) || (b1 != b2 && sha(b1) == sha(b2))
  {
    if Leaf.EndpointBytes(m1, p1) == Leaf.EndpointBytes(m2, p2) {
      AsciiInjective(Key(m1, p1), Key(m2, p2));
      KeyInjective(m1, p1, m2, p2);
    }
    EndpointHashIsOfBytes(sha, m1, p1);
    EndpointHashIsOfBytes(sha, m2, p2);
  }

  lemma EndpointHashIsOfBytes(sha: Sha, httpMethod: string, pathTemplate: string)
    ensures Leaf.EndpointHash(sha, httpMethod, pathTemplate) == sha(Leaf.EndpointBytes(httpMethod, pathTemplate))
  {
  }

  class RequestStore {
    var rows: seq<Row>

    constructor ()
      ensures rows == []
    {
      rows := [];
    }

    method RecordRequest(req: RecordedRequest, fault: Fault) returns (ok: bool)
      modifies this
      ensures (rows, ok) == Record(old(rows), req, fault)
    {
      var channel: Option<string> := None;
      if req.channel != "" {
        channel := Some(req.channel);
      }
      if fault.FailsBefore? || !TableAccepts(rows, Row(req, channel)) {
        return false;
      }
      rows := rows + [Row(req, channel)];
      ok := fault.NoFault?;
    }
  }

  class Middleware {
    const cfg: Config
    const recorder: RequestStore

    constructor (cfg: Config, recorder: RequestStore)
      ensures this.cfg == cfg && this.recorder == recorder
    {
      this.cfg := cfg;
      this.recorder := recorder;
    }

    /** The handler. `calledNext` says whether it reached the wrapped handler. */
    method ServeHTTP(sha: Sha, info: Option<RequestInfo>, ledger: Option<uint32>, units: uint64, id: Option<Hash>,
                     fault: Fault)
      returns (calledNext: bool)
      requires NoNil(cfg.catalog.versions)
      modifies recorder
      ensures (recorder.rows, calledNext) == ServeAlone(sha, cfg, old(recorder.rows), info, ledger, units, id, fault)
    {
      if info.None? {
        return false;
      }
      if Validate(info.value).Some? {
        return false;
      }
      if ledger.None? {
        return false;
      }
      var priced := Price(cfg.catalog, ledger.value, cfg.httpMethod, cfg.pathTemplate, units);
      if priced.Failure? {
        return false;
      }
      if id.None? {
        return false;
      }
      var rec := RequestOf(sha, cfg, info.value, ledger.value, units, priced.value, id.value);
      var ok := recorder.RecordRequest(rec, fault);
      if !ok {
        return false;
      }
      calledNext := true;
    }
  }
}
