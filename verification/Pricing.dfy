/** The catalog of published schedule versions, and the price of one request. */
module Pricing {
  import opened Wrappers
  import opened Bytes
  import opened Decimals
  import opened ScVals
  import opened Sorting
  import opened Schedules

  /** `schedule` is None for Go's nil pointer. */
  datatype CatalogVersion = CatalogVersion(version: uint32, effectiveLedger: uint32, schedule: Option<Schedule>)

  /** Sorted by effective ledger, ascending. */
  datatype Catalog = Catalog(versions: seq<CatalogVersion>)

  datatype CatalogError =
    | EmptyCatalog
    | NilSchedule(version: uint32)
    | DuplicateVersion(version: uint32)
    | DuplicateLedger(ledger: uint32)

  function Effective(): CatalogVersion -> int {
    (v: CatalogVersion) => v.effectiveLedger
  }

  function Number(): CatalogVersion -> int {
    (v: CatalogVersion) => v.version
  }

  ghost predicate NoNil(entries: seq<CatalogVersion>) {
    forall e | e in entries :: e.schedule.Some?
  }

  /** What NewCatalog asks of its entries, in any order. */
  ghost predicate Acceptable(entries: seq<CatalogVersion>) {
    entries != [] && NoNil(entries) && DistinctBy(entries, Number()) && DistinctBy(entries, Effective())
  }

  ghost predicate IsCatalogOf(entries: seq<CatalogVersion>, c: Catalog) {
    multiset(c.versions) == multiset(entries) && StrictlyAscending(c.versions, Effective())
  }

  /** A refusal names something that is wrong with the entries. */
  ghost predicate IsProblem(entries: seq<CatalogVersion>, e: CatalogError) {
    match e
    case EmptyCatalog => entries == []
    case NilSchedule(n) => exists v | v in entries :: v.schedule.None? && v.version == n
    case DuplicateVersion(n) => !DistinctBy(entries, Number()) && exists v | v in entries :: v.version == n
    case DuplicateLedger(l) => !DistinctBy(entries, Effective()) && exists v | v in entries :: v.effectiveLedger == l
  }

  /** What is wrong with version i when nothing is wrong before it: no schedule, else a
      version number seen before, else an effective ledger seen before. */
  ghost predicate FirstProblemAt(versions: seq<CatalogVersion>, i: nat, e: CatalogError) {
    && i < |versions| && NoNil(versions[..i])
    && DistinctBy(versions[..i], Number()) && DistinctBy(versions[..i], Effective())
    && match e
       case EmptyCatalog => false
       case NilSchedule(n) => n == versions[i].version && versions[i].schedule.None?
       case DuplicateVersion(n) =>
         n == versions[i].version && versions[i].schedule.Some?
         && exists k | 0 <= k < i :: versions[k].version == n
       case DuplicateLedger(l) =>
         l == versions[i].effectiveLedger && versions[i].schedule.Some?
         && (forall k | 0 <= k < i :: versions[k].version != versions[i].version)
         && exists k | 0 <= k < i :: versions[k].effectiveLedger == l
  }

  ghost predicate IsFirstProblem(entries: seq<CatalogVersion>, sorted: seq<CatalogVersion>, e: CatalogError) {
    multiset(sorted) == multiset(entries) && Ascending(sorted, Effective())
    && exists i: nat :: FirstProblemAt(sorted, i, e)
  }

  /** NewCatalog accepts exactly the acceptable entries and sorts them. */
  method NewCatalog(entries: seq<CatalogVersion>) returns (r: Result<Catalog, CatalogError>)
    ensures r.Success? <==> Acceptable(entries)
    ensures r.Success? ==> IsCatalogOf(entries, r.value)
    ensures r.Failure? ==> IsProblem(entries, r.error)
    ensures r.Failure? && entries != [] ==> exists sorted :: IsFirstProblem(entries, sorted, r.error)
  {
    if |entries| == 0 {
      return Failure(EmptyCatalog);
    }
    var versions := SortSlice(entries, Effective());
    var problem := FindProblem(versions);
    SameProblems(entries, versions);
    if problem.Some? {
      assert IsFirstProblem(entries, versions, problem.value);
      return Failure(problem.value);
    }
    r := Success(Catalog(versions));
  }

  /** NewCatalog's loop over the sorted versions, with the numbers and ledgers seen. */
  method FindProblem(versions: seq<CatalogVersion>) returns (r: Option<CatalogError>)
    ensures r.None? <==> NoNil(versions) && DistinctBy(versions, Number()) && DistinctBy(versions, Effective())
    ensures r.Some? ==> !r.value.EmptyCatalog? && IsProblem(versions, r.value)
    ensures r.Some? ==> exists i: nat :: FirstProblemAt(versions, i, r.value)
  {
    var seenVersion: set<uint32> := {};
    var seenLedger: set<uint32> := {};
    for i := 0 to |versions|
      invariant NoNil(versions[..i])
      invariant DistinctBy(versions[..i], Number()) && DistinctBy(versions[..i], Effective())
      invariant seenVersion == set k | 0 <= k < i :: versions[k].version
      invariant seenLedger == set k | 0 <= k < i :: versions[k].effectiveLedger
    {
      var v := versions[i];
      assert v in versions;
      if v.schedule.None? {
        assert FirstProblemAt(versions, i, NilSchedule(v.version));
        return Some(NilSchedule(v.version));
      }
      if v.version in seenVersion {
        Repeated(versions, i, Number());
        assert FirstProblemAt(versions, i, DuplicateVersion(v.version));
        return Some(DuplicateVersion(v.version));
      }
      if v.effectiveLedger in seenLedger {
        Repeated(versions, i, Effective());
        assert FirstProblemAt(versions, i, DuplicateLedger(v.effectiveLedger));
        return Some(DuplicateLedger(v.effectiveLedger));
      }
      ExtendDistinct(versions, i, Number());
      ExtendDistinct(versions, i, Effective());
      seenVersion := seenVersion + {v.version};
      seenLedger := seenLedger + {v.effectiveLedger};
    }
    assert versions[..|versions|] == versions;
    r := None;
  }

  lemma ExtendDistinct(versions: seq<CatalogVersion>, i: nat, key: CatalogVersion -> int)
    requires i < |versions| && DistinctBy(versions[..i], key)
    requires forall k | 0 <= k < i :: key(versions[k]) != key(versions[i])
    ensures DistinctBy(versions[..i + 1], key)
  {
    var longer := versions[..i + 1];
    forall a, b | 0 <= a < b < |longer| ensures key(longer[a]) != key(longer[b]) {
      if b < i {
        assert versions[..i][a] == versions[a] && versions[..i][b] == versions[b];
      }
    }
  }

  lemma Repeated(versions: seq<CatalogVersion>, i: nat, key: CatalogVersion -> int)
    requires i < |versions| && exists k | 0 <= k < i :: key(versions[k]) == key(versions[i])
    ensures !DistinctBy(versions, key)
  {
  }

  /** Sorting neither makes nor removes a problem. */
  lemma SameProblems(s: seq<CatalogVersion>, t: seq<CatalogVersion>)
    requires multiset(s) == multiset(t)
    ensures NoNil(s) <==> NoNil(t)
    ensures DistinctBy(s, Number()) <==> DistinctBy(t, Number())
    ensures DistinctBy(s, Effective()) <==> DistinctBy(t, Effective())
    ensures forall e: CatalogError | !e.EmptyCatalog? :: IsProblem(s, e) <==> IsProblem(t, e)
  {
    SameMembers(s, t);
    SameDistinct(s, t, Number());
    SameDistinct(s, t, Effective());
  }

  lemma SameDistinct(s: seq<CatalogVersion>, t: seq<CatalogVersion>, key: CatalogVersion -> int)
    requires multiset(s) == multiset(t)
    ensures DistinctBy(s, key) <==> DistinctBy(t, key)
  {
    if DistinctBy(s, key) {
      DistinctInAnyOrder(s, t, key);
    }
    if DistinctBy(t, key) {
      DistinctInAnyOrder(t, s, key);
    }
  }

  lemma SameMembers(s: seq<CatalogVersion>, t: seq<CatalogVersion>)
    requires multiset(s) == multiset(t)
    ensures forall e :: e in s <==> e in t
  {
    forall e ensures e in s <==> e in t {
      assert e in s <==> e in multiset(s);
      assert e in t <==> e in multiset(t);
    }
  }

  /** Whether a catalog is accepted, and which catalog it is, does not depend on the
      order of the entries. */
  lemma CatalogIgnoresOrder(entries: seq<CatalogVersion>, others: seq<CatalogVersion>, c: Catalog, d: Catalog)
    requires multiset(entries) == multiset(others)
    ensures Acceptable(entries) <==> Acceptable(others)
    ensures IsCatalogOf(entries, c) && IsCatalogOf(others, d) ==> c == d
  {
    SameProblems(entries, others);
    SameLength(entries, others);
    if IsCatalogOf(entries, c) && IsCatalogOf(others, d) {
      SortIsUnique(c.versions, d.versions, Effective());
    }
  }

  // ----- the version at a ledger -----

  /** The entry in force at a ledger: the greatest effective ledger not above it. */
  ghost predicate InForce(entries: seq<CatalogVersion>, ledger: uint32, v: CatalogVersion) {
    v in entries && v.effectiveLedger <= ledger
    && forall e | e in entries && e.effectiveLedger <= ledger :: e.effectiveLedger <= v.effectiveLedger
  }

  function LastNotAbove(versions: seq<CatalogVersion>, ledger: uint32): Option<CatalogVersion> {
    if versions == [] then None
    else if versions[|versions| - 1].effectiveLedger <= ledger then Some(versions[|versions| - 1])
    else LastNotAbove(versions[..|versions| - 1], ledger)
  }

  method VersionAt(c: Catalog, ledger: uint32) returns (r: Option<CatalogVersion>)
    ensures r == LastNotAbove(c.versions, ledger)
  {
    assert c.versions[..|c.versions|] == c.versions;
    for i := |c.versions| downto 0
      invariant LastNotAbove(c.versions[..i], ledger) == LastNotAbove(c.versions, ledger)
    {
      if c.versions[i].effectiveLedger <= ledger {
        return Some(c.versions[i]);
      }
      assert c.versions[..i + 1][..i] == c.versions[..i];
    }
    r := None;
  }

  lemma LastIsLatest(versions: seq<CatalogVersion>)
    requires versions != [] && StrictlyAscending(versions, Effective())
    ensures forall e | e in versions :: e.effectiveLedger <= versions[|versions| - 1].effectiveLedger
  {
    forall e | e in versions ensures e.effectiveLedger <= versions[|versions| - 1].effectiveLedger {
      var i :| 0 <= i < |versions| && versions[i] == e;
      assert i < |versions| - 1 ==> Effective()(versions[i]) < Effective()(versions[|versions| - 1]);
    }
  }

  lemma {:induction false} LastNotAboveIsInForce(versions: seq<CatalogVersion>, ledger: uint32)
    requires StrictlyAscending(versions, Effective())
    ensures LastNotAbove(versions, ledger).None? <==> forall e | e in versions :: e.effectiveLedger > ledger
    ensures LastNotAbove(versions, ledger).Some? ==> InForce(versions, ledger, LastNotAbove(versions, ledger).value)
  {
    if versions != [] {
      var n := |versions| - 1;
      LastIsLatest(versions);
      assert versions[n] in versions;
      if versions[n].effectiveLedger > ledger {
        FrontAscends(versions, Effective());
        LastNotAboveIsInForce(versions[..n], ledger);
        assert versions == versions[..n] + [versions[n]];
      }
    }
  }

  /** The catalog's backward walk finds, of the entries as they were given, the one
      in force; it finds none exactly when the ledger predates them all. */
  lemma VersionAtIsInForce(entries: seq<CatalogVersion>, c: Catalog, ledger: uint32, v: CatalogVersion)
    requires IsCatalogOf(entries, c)
    ensures LastNotAbove(c.versions, ledger) == Some(v) <==> InForce(entries, ledger, v)
    ensures LastNotAbove(c.versions, ledger).None? <==> forall e | e in entries :: e.effectiveLedger > ledger
  {
    SameMembers(entries, c.versions);
    LastNotAboveIsInForce(c.versions, ledger);
    if InForce(entries, ledger, v) {
      SameLedgerSameEntry(c, v, LastNotAbove(c.versions, ledger).value);
    }
  }

  /** The ledgers of one version are consecutive. */
  lemma VersionsAreIntervals(c: Catalog, first: uint32, ledger: uint32, last: uint32)
    requires StrictlyAscending(c.versions, Effective()) && first <= ledger <= last
    requires LastNotAbove(c.versions, first) == LastNotAbove(c.versions, last)
    ensures LastNotAbove(c.versions, ledger) == LastNotAbove(c.versions, first)
  {
    var at, atFirst := LastNotAbove(c.versions, ledger), LastNotAbove(c.versions, first);
    LastNotAboveIsInForce(c.versions, first);
    LastNotAboveIsInForce(c.versions, ledger);
    LastNotAboveIsInForce(c.versions, last);
    if atFirst.Some? {
      SameLedgerSameEntry(c, at.value, atFirst.value);
    }
  }

  lemma SameLedgerSameEntry(c: Catalog, v: CatalogVersion, w: CatalogVersion)
    requires StrictlyAscending(c.versions, Effective()) && v in c.versions && w in c.versions
    requires v.effectiveLedger == w.effectiveLedger
    ensures v == w
  {
    var i :| 0 <= i < |c.versions| && c.versions[i] == v;
    var j :| 0 <= j < |c.versions| && c.versions[j] == w;
    assert i < j ==> Effective()(c.versions[i]) < Effective()(c.versions[j]);
    assert j < i ==> Effective()(c.versions[j]) < Effective()(c.versions[i]);
  }

  // ----- pricing -----

  datatype PriceError = NoVersionAt | UnknownEndpoint(version: uint32)

  datatype PricedRequest = PricedRequest(chargedAmount: int, priceVersion: uint32)

  function Price(c: Catalog, ledger: uint32, httpMethod: string, pathTemplate: string, units: uint64):
    Result<PricedRequest, PriceError>
    requires NoNil(c.versions)
  {
    match LastNotAbove(c.versions, ledger)
    case None => Failure(NoVersionAt)
    case Some(v) =>
      LastIsMember(c.versions, ledger);
      match Lookup(v.schedule.value, httpMethod, pathTemplate)
      case None => Failure(UnknownEndpoint(v.version))
      case Some(unitPrice) => Success(PricedRequest(unitPrice * units, v.version))
  }

  lemma {:induction false} LastIsMember(versions: seq<CatalogVersion>, ledger: uint32)
    ensures LastNotAbove(versions, ledger).Some? ==> LastNotAbove(versions, ledger).value in versions
  {
    if versions != [] {
      LastIsMember(versions[..|versions| - 1], ledger);
    }
  }

  /** A price does not change between two ledgers of the same version. */
  lemma PriceIsConstantInAPeriod(c: Catalog, first: uint32, ledger: uint32, last: uint32, httpMethod: string,
                                 pathTemplate: string, units: uint64)
    requires NoNil(c.versions) && StrictlyAscending(c.versions, Effective()) && first <= ledger <= last
    requires LastNotAbove(c.versions, first) == LastNotAbove(c.versions, last)
    ensures Price(c, ledger, httpMethod, pathTemplate, units) == Price(c, first, httpMethod, pathTemplate, units)
  {
    VersionsAreIntervals(c, first, ledger, last);
  }

  /** Every schedule of the catalog came from ParseSchedule. */
  ghost predicate AllParsed(c: Catalog) {
    forall v | v in c.versions && v.schedule.Some? :: Valid(v.schedule.value)
  }

  /** The charge is the exact product of the unit count and the price the version in
      force at the ledger has for the endpoint, for entries given in any order; no
      version or no rule, no charge. Where no method has a space in it, that price is
      the one a plain scan of the version's rules finds. */
  lemma ChargeIsExact(entries: seq<CatalogVersion>, c: Catalog, ledger: uint32, httpMethod: string,
                      pathTemplate: string, units: uint64)
    requires IsCatalogOf(entries, c) && NoNil(c.versions) && AllParsed(c)
    ensures Price(c, ledger, httpMethod, pathTemplate, units) == Failure(NoVersionAt) <==>
      forall e | e in entries :: e.effectiveLedger > ledger
    ensures forall v | InForce(entries, ledger, v) ::
      && v.schedule.Some?
      && Price(c, ledger, httpMethod, pathTemplate, units)
         == ChargeAt(v, Lookup(v.schedule.value, httpMethod, pathTemplate), units)
    ensures forall v |
      InForce(entries, ledger, v) && v.schedule.Some? && NoSpace(httpMethod) && Spaceless(v.schedule.value) ::
      Lookup(v.schedule.value, httpMethod, pathTemplate) ==
        LinearScan(v.schedule.value.rules, ToUpper(httpMethod), pathTemplate)
  {
    SameMembers(entries, c.versions);
    LastNotAboveIsInForce(c.versions, ledger);
    forall v | InForce(entries, ledger, v)
      ensures LastNotAbove(c.versions, ledger) == Some(v) && v in c.versions
    {
      VersionAtIsInForce(entries, c, ledger, v);
    }
    forall v | InForce(entries, ledger, v) && v.schedule.Some? && NoSpace(httpMethod) && Spaceless(v.schedule.value)
      ensures Lookup(v.schedule.value, httpMethod, pathTemplate) ==
        LinearScan(v.schedule.value.rules, ToUpper(httpMethod), pathTemplate)
    {
      UpperKeepsSpaces(httpMethod);
      LookupOfSpaceless(v.schedule.value, httpMethod, pathTemplate);
    }
  }

  ghost predicate Spaceless(s: Schedule) {
    forall r | r in s.rules :: NoSpace(r.httpMethod)
  }

  function ChargeAt(v: CatalogVersion, unitPrice: Option<int>, units: uint64): Result<PricedRequest, PriceError> {
    if unitPrice.None? then Failure(UnknownEndpoint(v.version))
    else Success(PricedRequest(unitPrice.value * units, v.version))
  }

  lemma ProductOrder(a: nat, b: nat, units: nat)
    requires a <= b
    ensures a * units <= b * units
  {
  }

  const MAX_UNITS: uint64 := 0xFFFF_FFFF_FFFF_FFFF
  const TWO_63 := 0x8000_0000_0000_0000

  /** The charge can be written into a leaf record. */
  predicate ChargeFits(unitPrice: int, units: uint64) {
    ScvI128(Some(unitPrice * units)).Success?
  }

  /** A charge can be encoded for every unit count exactly when the unit price is at
      most 2^63; the largest unit count decides. The limit checked when a schedule
      is loaded is 2^127 - 1, so it does not give this. */
  lemma EncodableChargeBound(unitPrice: nat)
    ensures (forall units: uint64 :: ChargeFits(unitPrice, units)) <==> unitPrice <= TWO_63
    ensures unitPrice > TWO_63 ==> !ChargeFits(unitPrice, MAX_UNITS)
    ensures forall units: uint64 :: ChargeFits(unitPrice, units) <==> unitPrice * units <= TWO_127 - 1
  {
    if unitPrice <= TWO_63 {
      forall units: uint64 ensures ChargeFits(unitPrice, units) {
        ProductOrder(unitPrice, TWO_63, units);
      }
    } else {
      ProductOrder(TWO_63 + 1, unitPrice, MAX_UNITS);
      assert !ChargeFits(unitPrice, MAX_UNITS);
    }
  }

  lemma LookupInRange(s: Schedule, httpMethod: string, pathTemplate: string)
    requires Valid(s)
    ensures var p := Lookup(s, httpMethod, pathTemplate); p.Some? ==> 0 <= p.value < TWO_127
  {
    var key := Key(ToUpper(httpMethod), pathTemplate);
    if key in s.byKey {
      var r :| r in s.rules && KeyOf(r) == key;
    }
  }

  /** A price that was accepted can put a charge out of the i128 range: over all unit
      counts it does so exactly when it is above 2^63. */
  lemma AcceptedPriceCanOverflow(c: Catalog, v: CatalogVersion, ledger: uint32, httpMethod: string,
                                 pathTemplate: string)
    requires NoNil(c.versions) && AllParsed(c) && LastNotAbove(c.versions, ledger) == Some(v) && v.schedule.Some?
    requires Lookup(v.schedule.value, httpMethod, pathTemplate).Some?
    ensures var p := Lookup(v.schedule.value, httpMethod, pathTemplate).value;
      && 0 <= p < TWO_127
      && (forall units: uint64 ::
            Price(c, ledger, httpMethod, pathTemplate, units) == Success(PricedRequest(p * units, v.version)))
      && ((forall units: uint64 :: ChargeFits(p, units)) <==> p <= TWO_63)
  {
    LastIsMember(c.versions, ledger);
    LookupInRange(v.schedule.value, httpMethod, pathTemplate);
    EncodableChargeBound(Lookup(v.schedule.value, httpMethod, pathTemplate).value);
  }

  /** The largest price a schedule may have. */
  const MAX_PRICE := TWO_127 - 1

  function LargestPriceRule(): RawRule {
    RawRule("GET", "/x", Show(MAX_PRICE))
  }

  function LargestPriceSchedule(): Schedule {
    var rule := Rule("GET", "/x", MAX_PRICE);
    Schedule([rule], map[KeyOf(rule) := rule])
  }

  function LargestPriceCatalog(): Catalog {
    Catalog([CatalogVersion(1, 0, Some(LargestPriceSchedule()))])
  }

  lemma DigitsAreTrimmed(s: string)
    requires AllDigits(s)
    ensures TrimSpace(s) == s
  {
    assert !IsSpace(s[0]) && !IsSpace(s[|s| - 1]);
  }

  /** The schedule with one rule at the largest price is accepted. */
  lemma LargestPriceIsAccepted()
    ensures Scan([LargestPriceRule()]) == Success(LargestPriceSchedule().rules)
    ensures Valid(LargestPriceSchedule())
  {
    var raw, s := LargestPriceRule(), LargestPriceSchedule();
    LargestPriceNormalized(raw);
    ScanAccepts([raw]);
    var rules := Scan([raw]).value;
    assert rules == s.rules;
    ParsedIsValid([raw], s);
  }

  lemma LargestPriceNormalized(raw: RawRule)
    requires raw == LargestPriceRule()
    ensures WellFormed(raw) && Normalized(raw) == Rule("GET", "/x", MAX_PRICE)
  {
    MethodAndPath(raw);
    DigitsAreTrimmed(raw.unitPrice);
    ParseDecimalOfShow(MAX_PRICE);
  }

  lemma MethodAndPath(raw: RawRule)
    requires raw.httpMethod == "GET" && raw.pathTemplate == "/x"
    ensures MethodOf(raw) == "GET" && PathOf(raw) == "/x"
  {
    assert TrimSpace("GET") == "GET" && TrimSpace("/x") == "/x" && ToUpper("GET") == "GET";
  }

  /** And two units of it cost more than an i128 holds. */
  lemma TwoUnitsOverflow(ledger: uint32)
    ensures NoNil(LargestPriceCatalog().versions)
    ensures IsCatalogOf(LargestPriceCatalog().versions, LargestPriceCatalog())
    ensures Price(LargestPriceCatalog(), ledger, "GET", "/x", 2) == Success(PricedRequest(TWO_128 - 2, 1))
    ensures !ChargeFits(MAX_PRICE, 2)
  {
    assert ToUpper("GET") == "GET";
    assert Lookup(LargestPriceSchedule(), "GET", "/x") == Some(MAX_PRICE);
  }
}
