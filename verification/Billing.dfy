/** From a served request to the leaf that bills it: which stored rows can become
    leaves of the usage tree. */
module Billing {
  import opened Wrappers
  import opened Bytes
  import opened ScVals
  import opened Postgres
  import opened Schedules
  import opened Pricing
  import opened Metering
  import opened MeteringTrace

  /** The leaf record with a stored row's values. */
  function LeafOf(row: Row): Leaf.Record {
    Leaf.Record(Some(row.req.chargedAmount), row.req.consumer, row.req.endpointHash, row.req.observedLedger,
                row.req.priceVersion, row.req.requestID, row.req.unitCount)
  }

  predicate Billable(strkey: Strkey, row: Row) {
    Leaf.EncodeRecord(strkey, LeafOf(row)).Success?
  }

  predicate IsAccount(strkey: Strkey, consumer: string) {
    var decoded := strkey(consumer);
    decoded.Some? && decoded.value.0.AccountID? && |decoded.value.1| == 32
  }

  /** The unit price in force for an endpoint. */
  function UnitPrice(c: Catalog, ledger: uint32, httpMethod: string, pathTemplate: string): Option<int> {
    match LastNotAbove(c.versions, ledger)
    case Some(CatalogVersion(_, _, Some(s))) => Lookup(s, httpMethod, pathTemplate)
    case _ => None
  }

  lemma BillableRows(strkey: Strkey, row: Row)
    ensures Billable(strkey, row) <==> IsAccount(strkey, row.req.consumer) && InI128Range(row.req.chargedAmount)
  {
    Leaf.EncodableRecords(strkey, LeafOf(row));
    if IsAccount(strkey, row.req.consumer) {
      var raw := strkey(row.req.consumer).value.1;
      assert strkey(row.req.consumer) == Some((AccountID, raw));
    }
  }

  /** Reading a leaf's bytes gives the row's columns back. */
  lemma LeafCarriesRow(strkey: Strkey, row: Row)
    requires Billable(strkey, row)
    ensures var f := Leaf.DecodeRecord(Leaf.EncodeRecord(strkey, LeafOf(row)).value);
      && f.Some? && strkey(row.req.consumer) == Some((AccountID, f.value.consumerKey))
      && f.value.amount == row.req.chargedAmount && f.value.units == row.req.unitCount
      && f.value.endpointHash == row.req.endpointHash && f.value.requestID == row.req.requestID
      && f.value.ledger == row.req.observedLedger && f.value.priceVersion == row.req.priceVersion
  {
    Leaf.DecodeEncodedRecord(strkey, LeafOf(row));
  }

  lemma PriceIsProduct(c: Catalog, ledger: uint32, httpMethod: string, pathTemplate: string, units: uint64)
    requires NoNil(c.versions)
    ensures var price := Price(c, ledger, httpMethod, pathTemplate, units);
      var p := UnitPrice(c, ledger, httpMethod, pathTemplate);
      price.Success? <==> p.Some?
    ensures var price := Price(c, ledger, httpMethod, pathTemplate, units);
      var p := UnitPrice(c, ledger, httpMethod, pathTemplate);
      price.Success? ==> price.value.chargedAmount == p.value * units
  {
    LastIsMember(c.versions, ledger);
  }

  lemma UnitPriceInRange(c: Catalog, ledger: uint32, httpMethod: string, pathTemplate: string)
    requires NoNil(c.versions) && AllParsed(c)
    ensures var p := UnitPrice(c, ledger, httpMethod, pathTemplate); p.Some? ==> 0 <= p.value < TWO_127
  {
    LastIsMember(c.versions, ledger);
    var v := LastNotAbove(c.versions, ledger);
    if v.Some? {
      LookupInRange(v.value.schedule.value, httpMethod, pathTemplate);
    }
  }

  /** After any run of the metering handler, a stored row can become a leaf exactly when
      its consumer is an account and the unit price in force at its ledger, times its
      units, is at most 2^127 - 1. */
  lemma StoredRowIsBillable(sha: Sha, cfg: Config, strkey: Strkey, events: seq<Event>, row: Row)
    requires NoNil(cfg.catalog.versions) && AllParsed(cfg.catalog) && row in Run(sha, cfg, START, events).rows
    ensures var p := UnitPrice(cfg.catalog, row.req.observedLedger, cfg.httpMethod, cfg.pathTemplate);
      && p.Some?
      && (Billable(strkey, row) <==>
            IsAccount(strkey, row.req.consumer) && p.value * row.req.unitCount <= TWO_127 - 1)
  {
    StoredRowsReprice(sha, cfg, events);
    assert Reprices(sha, cfg, row.req);
    BillableRows(strkey, row);
    PriceIsProduct(cfg.catalog, row.req.observedLedger, cfg.httpMethod, cfg.pathTemplate, row.req.unitCount);
    UnitPriceInRange(cfg.catalog, row.req.observedLedger, cfg.httpMethod, cfg.pathTemplate);
  }

  /** The highest unit price at which every unit count a BIGINT holds stays in range. */
  const SAFE_PRICE := TWO_64 + 2

  lemma SafePrice(p: nat, units: nat)
    requires p <= SAFE_PRICE && units <= MAX_BIGINT
    ensures p * units <= TWO_127 - 1
  {
    ProductOrder(p, SAFE_PRICE, units);
    ProductOrder(units, MAX_BIGINT, SAFE_PRICE);
  }

  /** Above it some unit count takes the charge out of range, though not out of the
      column NUMERIC(39, 0). */
  lemma UnsafePrice(p: nat) returns (units: uint64)
    requires SAFE_PRICE < p < TWO_127
    ensures 0 < units <= MAX_BIGINT && TWO_127 <= p * units < NUMERIC_LIMIT
  {
    var n := (TWO_127 - 1) / p + 1;
    assert p * (n - 1) <= TWO_127 - 1 < p * (n - 1) + p;
    assert p * n == p * (n - 1) + p;
    if n > MAX_BIGINT {
      ProductOrder(SAFE_PRICE + 1, p, n - 1);
      ProductOrder(MAX_BIGINT, n - 1, SAFE_PRICE + 1);
      assert false;
    }
    units := n;
  }

  /** In numbers, when an undisturbed request is served: its caller is valid, its endpoint
      has a price at its ledger, its id is new, and ledger, version, units and charge fit
      their columns. */
  lemma ServedInNumbers(sha: Sha, cfg: Config, rows: seq<Row>, info: RequestInfo, ledger: uint32, units: uint64,
                        id: Hash)
    requires NoNil(cfg.catalog.versions) && AllParsed(cfg.catalog)
    ensures ServeAlone(sha, cfg, rows, Some(info), Some(ledger), units, Some(id), NoFault).1 <==>
      Servable(cfg, rows, info, ledger, id)
      && 0 < units <= 9223372036854775807
      && UnitPrice(cfg.catalog, ledger, cfg.httpMethod, cfg.pathTemplate).value * units
         <= 999_999_999_999_999_999_999_999_999_999_999_999_999
  {
    PriceIsProduct(cfg.catalog, ledger, cfg.httpMethod, cfg.pathTemplate, units);
    UnitPriceInRange(cfg.catalog, ledger, cfg.httpMethod, cfg.pathTemplate);
    LastIsMember(cfg.catalog.versions, ledger);
    var p := UnitPrice(cfg.catalog, ledger, cfg.httpMethod, cfg.pathTemplate);
    if p.Some? {
      ProductOrder(0, p.value, units);
    }
  }

  /** What a request leaves when the endpoint has a price: it is served exactly when its
      units and its charge fit their columns, and the row holds the charge. */
  lemma ServedCharge(sha: Sha, cfg: Config, rows: seq<Row>, info: RequestInfo, ledger: uint32, units: uint64, id: Hash)
    requires NoNil(cfg.catalog.versions) && AllParsed(cfg.catalog) && Servable(cfg, rows, info, ledger, id)
    ensures var p := UnitPrice(cfg.catalog, ledger, cfg.httpMethod, cfg.pathTemplate).value;
      var (rows', served) := ServeAlone(sha, cfg, rows, Some(info), Some(ledger), units, Some(id), NoFault);
      && (served <==> 0 < units <= MAX_BIGINT && p * units < NUMERIC_LIMIT)
      && (served ==>
            |rows'| == |rows| + 1
            && rows'[|rows|].req.chargedAmount == p * units && rows'[|rows|].req.consumer == info.consumer)
  {
    PriceIsProduct(cfg.catalog, ledger, cfg.httpMethod, cfg.pathTemplate, units);
    UnitPriceInRange(cfg.catalog, ledger, cfg.httpMethod, cfg.pathTemplate);
  }

  /** Everything but the unit count is in order: the caller is valid, the endpoint has a
      price at the ledger, ledger and version fit their columns, and the id is new. */
  ghost predicate Servable(cfg: Config, rows: seq<Row>, info: RequestInfo, ledger: uint32, id: Hash) {
    && Validate(info).None?
    && UnitPrice(cfg.catalog, ledger, cfg.httpMethod, cfg.pathTemplate).Some?
    && ledger <= 2147483647
    && LastNotAbove(cfg.catalog.versions, ledger).value.version <= 2147483647
    && forall r | r in rows :: r.req.requestID != id
  }

  /** The row a request leaves, if it is served, can become a leaf. */
  ghost predicate BillableIfServed(sha: Sha, cfg: Config, strkey: Strkey, rows: seq<Row>, info: RequestInfo,
                                   ledger: uint32, units: uint64, id: Hash)
    requires NoNil(cfg.catalog.versions)
  {
    var (rows', served) := ServeAlone(sha, cfg, rows, Some(info), Some(ledger), units, Some(id), NoFault);
    served ==> |rows'| == |rows| + 1 && Billable(strkey, rows'[|rows|])
  }

  /** Whatever is served can be billed, for an account's requests of every size, exactly
      when the unit price is at most 2^64 + 2. */
  lemma ServedIsBillable(sha: Sha, cfg: Config, strkey: Strkey, rows: seq<Row>, info: RequestInfo, ledger: uint32,
                         id: Hash)
    requires NoNil(cfg.catalog.versions) && AllParsed(cfg.catalog) && Servable(cfg, rows, info, ledger, id)
    requires IsAccount(strkey, info.consumer)
    ensures (forall units: uint64 :: BillableIfServed(sha, cfg, strkey, rows, info, ledger, units, id)) <==>
      UnitPrice(cfg.catalog, ledger, cfg.httpMethod, cfg.pathTemplate).value <= SAFE_PRICE
  {
    var p := UnitPrice(cfg.catalog, ledger, cfg.httpMethod, cfg.pathTemplate).value;
    UnitPriceInRange(cfg.catalog, ledger, cfg.httpMethod, cfg.pathTemplate);
    if p <= SAFE_PRICE {
      forall units: uint64 ensures BillableIfServed(sha, cfg, strkey, rows, info, ledger, units, id) {
        BillableWhenInRange(sha, cfg, strkey, rows, info, ledger, units, id);
        if units <= MAX_BIGINT {
          SafePrice(p, units);
        }
      }
    } else {
      var units := UnsafePrice(p);
      BillableWhenInRange(sha, cfg, strkey, rows, info, ledger, units, id);
    }
  }

  lemma BillableWhenInRange(sha: Sha, cfg: Config, strkey: Strkey, rows: seq<Row>, info: RequestInfo, ledger: uint32,
                            units: uint64, id: Hash)
    requires NoNil(cfg.catalog.versions) && AllParsed(cfg.catalog) && Servable(cfg, rows, info, ledger, id)
    requires IsAccount(strkey, info.consumer)
    ensures var p := UnitPrice(cfg.catalog, ledger, cfg.httpMethod, cfg.pathTemplate).value;
      BillableIfServed(sha, cfg, strkey, rows, info, ledger, units, id) <==>
        (0 < units <= MAX_BIGINT && p * units < NUMERIC_LIMIT ==> p * units <= TWO_127 - 1)
  {
    ServedCharge(sha, cfg, rows, info, ledger, units, id);
    UnitPriceInRange(cfg.catalog, ledger, cfg.httpMethod, cfg.pathTemplate);
    var p := UnitPrice(cfg.catalog, ledger, cfg.httpMethod, cfg.pathTemplate).value;
    assert 0 <= p * units by { ProductOrder(0, p, units); }
    var (rows', served) := ServeAlone(sha, cfg, rows, Some(info), Some(ledger), units, Some(id), NoFault);
    if served {
      BillableRows(strkey, rows'[|rows|]);
    }
  }

  /** Two units at the largest price a schedule may have are recorded and served, and
      the row can never become a leaf. */
  lemma ServedButNotBillable(sha: Sha, strkey: Strkey, operator: string, info: RequestInfo, ledger: uint32, id: Hash)
    requires Validate(info).None? && ledger <= MAX_INTEGER
    ensures NoNil(LargestPriceCatalog().versions)
    ensures var cfg := Config(operator, "GET", "/x", LargestPriceCatalog());
      var (rows, served) := ServeAlone(sha, cfg, [], Some(info), Some(ledger), 2, Some(id), NoFault);
      served && |rows| == 1 && !Billable(strkey, rows[0])
  {
    TwoUnitsOverflow(ledger);
    var cfg := Config(operator, "GET", "/x", LargestPriceCatalog());
    var (rows, served) := ServeAlone(sha, cfg, [], Some(info), Some(ledger), 2, Some(id), NoFault);
    BillableRows(strkey, rows[0]);
  }
}
