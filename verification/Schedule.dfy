/** A published price schedule: its validation, its key index, and the lookup. */
module Schedules {
  import opened Wrappers
  import opened Bytes
  import opened Decimals

  /** One rule as the JSON document spells it. */
  datatype RawRule = RawRule(httpMethod: string, pathTemplate: string, unitPrice: string)

  datatype Rule = Rule(httpMethod: string, pathTemplate: string, unitPrice: int)

  datatype Schedule = Schedule(rules: seq<Rule>, byKey: map<string, Rule>)

  datatype RuleError =
    | InvalidMethod
    | InvalidPathTemplate
    | DuplicateRule
    | InvalidUnitPrice
    | UnitPriceOutOfRange

  datatype ParseError = BadJSON | EmptySchedule | BadRule(index: nat, error: RuleError)

  // ----- strings, on ASCII -----

  function UpperChar(c: char): char {
    if 'a' <= c <= 'z' then ((c as int) - 32) as char else c
  }

  /** strings.ToUpper */
  function ToUpper(s: string): (r: string)
    ensures |r| == |s|
  {
    seq(|s|, i requires 0 <= i < |s| => UpperChar(s[i]))
  }

  predicate IsSpace(c: char) {
    c == ' ' || 9 <= c as int <= 13
  }

  function TrimLeft(s: string): string {
    if s != [] && IsSpace(s[0]) then TrimLeft(s[1..]) else s
  }

  function TrimRight(s: string): string {
    if s != [] && IsSpace(s[|s| - 1]) then TrimRight(s[..|s| - 1]) else s
  }

  /** strings.TrimSpace */
  function TrimSpace(s: string): string {
    TrimRight(TrimLeft(s))
  }

  /** big.Int.SetString in base 10: an optional sign, then digits. */
  function ParseDecimal(s: string): Option<int> {
    if s != [] && (s[0] == '-' || s[0] == '+') then
      if AllDigits(s[1..]) then Some(if s[0] == '-' then 0 - Value(s[1..]) else Value(s[1..])) else None
    else if AllDigits(s) then Some(Value(s))
    else None
  }

  /** Every integer is read back from the way it is usually written, with or without
      a plus sign; so is minus zero, as zero. */
  lemma ParseDecimalOfShow(n: nat)
    ensures ParseDecimal(Show(n)) == ParseDecimal("+" + Show(n)) == Some(n)
    ensures ParseDecimal("-" + Show(n)) == Some(0 - n)
  {
    ValueOfShow(n);
    assert ("+" + Show(n))[1..] == Show(n) && ("-" + Show(n))[1..] == Show(n);
  }

  /** A numeral: nothing, a plus or a minus, then one or more decimal digits. */
  ghost predicate Spells(s: string, sign: string, digits: string) {
    && (sign == "" || sign == "+" || sign == "-")
    && digits != "" && (forall i | 0 <= i < |digits| :: '0' <= digits[i] <= '9')
    && s == sign + digits
  }

  /** Exactly the numerals are read, and every other text is refused. */
  lemma ParseDecimalReadsNumerals(s: string)
    ensures ParseDecimal(s).Some? <==> exists sign, digits :: Spells(s, sign, digits)
  {
    if ParseDecimal(s).Some? {
      if s[0] == '-' || s[0] == '+' {
        assert Spells(s, s[..1], s[1..]);
      } else {
        assert Spells(s, "", s);
      }
    }
    if sign, digits :| Spells(s, sign, digits) {
      NumeralIsRead(s, sign, digits);
    }
  }

  lemma NumeralIsRead(s: string, sign: string, digits: string)
    requires Spells(s, sign, digits)
    ensures AllDigits(digits) && ParseDecimal(s) == Some(if sign == "-" then 0 - Value(digits) else Value(digits))
  {
    if sign == "" {
      assert s == digits;
    } else {
      assert s[0] == sign[0] && s[1..] == digits;
    }
  }

  /** Upper case changes the letters 'a' to 'z' into 'A' to 'Z' and nothing else. */
  lemma UpperCase(s: string, i: nat)
    requires i < |s|
    ensures 'a' <= s[i] <= 'z' ==> ToUpper(s)[i] as int - 'A' as int == s[i] as int - 'a' as int
    ensures !('a' <= s[i] <= 'z') ==> ToUpper(s)[i] == s[i]
  {
  }

  /** Trimming takes white space off both ends, all of it and nothing else. */
  lemma TrimSpaceIsMiddle(s: string) returns (left: string, right: string)
    ensures s == left + TrimSpace(s) + right
    ensures forall c | c in left + right :: c in {' ', '\t', '\n', '\U{000B}', '\U{000C}', '\r'}
    ensures TrimSpace(s) != "" ==>
      var first, last := TrimSpace(s)[0], TrimSpace(s)[|TrimSpace(s)| - 1];
      && first !in {' ', '\t', '\n', '\U{000B}', '\U{000C}', '\r'}
      && last !in {' ', '\t', '\n', '\U{000B}', '\U{000C}', '\r'}
  {
    left := TrimLeftDrops(s);
    right := TrimRightDrops(TrimLeft(s));
    assert s == left + (TrimSpace(s) + right);
    if TrimSpace(s) != "" {
      assert TrimSpace(s)[0] == TrimLeft(s)[0];
    }
  }

  lemma {:induction false} TrimLeftDrops(s: string) returns (left: string)
    ensures s == left + TrimLeft(s) && forall c | c in left :: IsSpace(c)
    ensures TrimLeft(s) != "" ==> !IsSpace(TrimLeft(s)[0])
  {
    if s != [] && IsSpace(s[0]) {
      var rest := TrimLeftDrops(s[1..]);
      left := [s[0]] + rest;
      assert s == [s[0]] + s[1..];
    } else {
      left := "";
    }
  }

  lemma {:induction false} TrimRightDrops(s: string) returns (right: string)
    ensures s == TrimRight(s) + right && forall c | c in right :: IsSpace(c)
    ensures TrimRight(s) != "" ==> !IsSpace(TrimRight(s)[|TrimRight(s)| - 1])
  {
    if s != [] && IsSpace(s[|s| - 1]) {
      var n := |s| - 1;
      var rest := TrimRightDrops(s[..n]);
      right := rest + [s[n]];
      assert s == s[..n] + [s[n]];
      assert s == TrimRight(s) + (rest + [s[n]]);
    } else {
      right := "";
    }
  }

  predicate NoSpace(s: string) {
    forall i | 0 <= i < |s| :: s[i] != ' '
  }

  // ----- validation -----

  function Key(httpMethod: string, pathTemplate: string): string {
    httpMethod + " " + pathTemplate
  }

  function KeyOf(r: Rule): string {
    Key(r.httpMethod, r.pathTemplate)
  }

  function MethodOf(raw: RawRule): string {
    ToUpper(TrimSpace(raw.httpMethod))
  }

  function PathOf(raw: RawRule): string {
    TrimSpace(raw.pathTemplate)
  }

  /** A rule that is acceptable taken by itself. */
  predicate WellFormed(raw: RawRule) {
    var price := ParseDecimal(TrimSpace(raw.unitPrice));
    MethodOf(raw) != "" && PathOf(raw) != "" && PathOf(raw)[0] == '/'
    && price.Some? && 0 <= price.value < TWO_127
  }

  function Normalized(raw: RawRule): Rule
    requires WellFormed(raw)
  {
    Rule(MethodOf(raw), PathOf(raw), ParseDecimal(TrimSpace(raw.unitPrice)).value)
  }

  /** The loop: the rules so far, or the first rule refused and why. */
  function Scan(raws: seq<RawRule>): Result<seq<Rule>, ParseError> {
    if raws == [] then Success([])
    else
      var n := |raws| - 1;
      var rules :- Scan(raws[..n]);
      match RefusalOf(rules, raws[n])
      case Some(e) => Failure(BadRule(n, e))
      case None => Success(rules + [Normalized(raws[n])])
  }

  /** Why a rule is refused after the rules before it; the checks in order. */
  function RefusalOf(rules: seq<Rule>, raw: RawRule): (r: Option<RuleError>)
    ensures r.None? <==> WellFormed(raw) && Key(MethodOf(raw), PathOf(raw)) !in Keys(rules)
  {
    var price := ParseDecimal(TrimSpace(raw.unitPrice));
    if MethodOf(raw) == "" then Some(InvalidMethod)
    else if PathOf(raw) == "" || PathOf(raw)[0] != '/' then Some(InvalidPathTemplate)
    else if Key(MethodOf(raw), PathOf(raw)) in Keys(rules) then Some(DuplicateRule)
    else if price.None? || price.value < 0 then Some(InvalidUnitPrice)
    else if price.value >= TWO_127 then Some(UnitPriceOutOfRange)
    else None
  }

  /** Why a rule is refused: the first thing that is wrong with its trimmed method, its
      trimmed path, its key and its trimmed price, in this order. */
  lemma RefusalReasons(rules: seq<Rule>, raw: RawRule)
    ensures var m, p := ToUpper(TrimSpace(raw.httpMethod)), TrimSpace(raw.pathTemplate);
      var price := TrimSpace(raw.unitPrice);
      var named := m != "" && p != "" && p[0] == '/';
      var unused := forall r | r in rules :: r.httpMethod + " " + r.pathTemplate != m + " " + p;
      && (RefusalOf(rules, raw) == Some(InvalidMethod) <==> m == "")
      && (RefusalOf(rules, raw) == Some(InvalidPathTemplate) <==> m != "" && !(p != "" && p[0] == '/'))
      && (RefusalOf(rules, raw) == Some(DuplicateRule) <==> named && !unused)
      && (RefusalOf(rules, raw) == Some(InvalidUnitPrice) <==> named && unused && !IsAmount(price))
      && (RefusalOf(rules, raw) == Some(UnitPriceOutOfRange) <==>
            named && unused && exists digits :: SpellsAtLeast(price, digits, TWO_127))
  {
    var price := TrimSpace(raw.unitPrice);
    KeyTaken(rules, MethodOf(raw), PathOf(raw));
    AmountIsRead(price);
  }

  /** A numeral without a minus, or of zero. */
  ghost predicate IsAmount(s: string) {
    exists sign, digits :: Spells(s, sign, digits) && (sign == "-" ==> AllDigits(digits) && Value(digits) == 0)
  }

  ghost predicate SpellsAtLeast(s: string, digits: string, bound: nat) {
    (Spells(s, "", digits) || Spells(s, "+", digits)) && AllDigits(digits) && Value(digits) >= bound
  }

  lemma KeyTaken(rules: seq<Rule>, m: string, p: string)
    ensures Key(m, p) in Keys(rules) <==>
      exists r | r in rules :: r.httpMethod + " " + r.pathTemplate == m + " " + p
  {
    if r :| r in rules && r.httpMethod + " " + r.pathTemplate == m + " " + p {
      assert KeyOf(r) == Key(m, p);
    }
  }

  lemma AmountIsRead(s: string)
    ensures IsAmount(s) <==> ParseDecimal(s).Some? && ParseDecimal(s).value >= 0
    ensures (exists digits :: SpellsAtLeast(s, digits, TWO_127)) <==>
      ParseDecimal(s).Some? && ParseDecimal(s).value >= TWO_127
  {
    ParseDecimalReadsNumerals(s);
    if ParseDecimal(s).Some? {
      var sign, digits :| Spells(s, sign, digits);
      NumeralIsRead(s, sign, digits);
      if ParseDecimal(s).value >= TWO_127 {
        assert SpellsAtLeast(s, digits, TWO_127);
      }
    }
    if sign, digits :| Spells(s, sign, digits) && (sign == "-" ==> AllDigits(digits) && Value(digits) == 0) {
      NumeralIsRead(s, sign, digits);
    }
    if digits :| SpellsAtLeast(s, digits, TWO_127) {
      NumeralIsRead(s, if Spells(s, "", digits) then "" else "+", digits);
    }
  }

  /** A document is refused at its first bad rule, by that rule's number and reason. */
  lemma {:induction false} ScanRefusal(raws: seq<RawRule>, i: nat, e: RuleError)
    ensures Scan(raws) == Failure(BadRule(i, e)) <==>
      i < |raws| && Scan(raws[..i]).Success? && RefusalOf(Scan(raws[..i]).value, raws[i]) == Some(e)
  {
    if raws != [] {
      var n := |raws| - 1;
      ScanFailure(raws[..n]);
      if i < n {
        ScanRefusal(raws[..n], i, e);
        assert raws[..n][..i] == raws[..i];
        RefusedStaysRefused(raws, i, e);
      }
    }
  }

  lemma RefusedStaysRefused(raws: seq<RawRule>, i: nat, e: RuleError)
    requires i < |raws| - 1
    ensures Scan(raws) == Failure(BadRule(i, e)) <==> Scan(raws[..|raws| - 1]) == Failure(BadRule(i, e))
  {
  }

  lemma {:induction false} ScanFailure(raws: seq<RawRule>)
    ensures Scan(raws).Failure? ==> Scan(raws).error.BadRule? && Scan(raws).error.index < |raws|
  {
    if raws != [] {
      ScanFailure(raws[..|raws| - 1]);
    }
  }

  function Keys(rules: seq<Rule>): set<string> {
    set r | r in rules :: KeyOf(r)
  }

  /** The index maps each rule's key to the rule, and nothing else. */
  ghost predicate Indexes(byKey: map<string, Rule>, rules: seq<Rule>) {
    && (forall r | r in rules :: KeyOf(r) in byKey && byKey[KeyOf(r)] == r)
    && (forall k | k in byKey :: k in Keys(rules))
  }

  method ParseSchedule(doc: Option<seq<RawRule>>) returns (r: Result<Schedule, ParseError>)
    ensures match r
      case Success(s) =>
        doc.Some? && doc.value != [] && Scan(doc.value) == Success(s.rules) && Indexes(s.byKey, s.rules)
      case Failure(BadJSON) => doc == None
      case Failure(EmptySchedule) => doc == Some([])
      case Failure(BadRule(i, e)) => doc.Some? && Scan(doc.value) == Failure(BadRule(i, e))
  {
    if doc.None? {
      return Failure(BadJSON);
    }
    var raws := doc.value;
    if |raws| == 0 {
      return Failure(EmptySchedule);
    }
    var rules: seq<Rule> := [];
    var byKey: map<string, Rule> := map[];
    for i := 0 to |raws|
      invariant Scan(raws[..i]) == Success(rules) && Indexes(byKey, rules)
    {
      var raw := raws[i];
      assert raws[..i + 1][..i] == raws[..i];
      ScanStops(raws, i + 1);
      var httpMethod := ToUpper(TrimSpace(raw.httpMethod));
      if httpMethod == "" {
        return Failure(BadRule(i, InvalidMethod));
      }
      var path := TrimSpace(raw.pathTemplate);
      if path == "" || path[0] != '/' {
        return Failure(BadRule(i, InvalidPathTemplate));
      }
      var key := Key(httpMethod, path);
      if key in byKey {
        return Failure(BadRule(i, DuplicateRule));
      }
      assert key !in Keys(rules);
      var price := ParseDecimal(TrimSpace(raw.unitPrice));
      if price.None? || price.value < 0 {
        return Failure(BadRule(i, InvalidUnitPrice));
      }
      if price.value > TWO_127 - 1 {
        return Failure(BadRule(i, UnitPriceOutOfRange));
      }
      var rule := Rule(httpMethod, path, price.value);
      IndexGrows(byKey, rules, rule);
      rules := rules + [rule];
      byKey := byKey[key := rule];
    }
    assert raws[..|raws|] == raws;
    r := Success(Schedule(rules, byKey));
  }

  lemma IndexGrows(byKey: map<string, Rule>, rules: seq<Rule>, rule: Rule)
    requires Indexes(byKey, rules) && KeyOf(rule) !in Keys(rules)
    ensures Indexes(byKey[KeyOf(rule) := rule], rules + [rule])
  {
    forall k | k in byKey[KeyOf(rule) := rule] ensures k in Keys(rules + [rule]) {
      if k == KeyOf(rule) {
        assert rule in rules + [rule];
      } else {
        var r :| r in rules && KeyOf(r) == k;
        assert r in rules + [rule];
      }
    }
    forall r | r in rules + [rule]
      ensures KeyOf(r) in byKey[KeyOf(rule) := rule] && byKey[KeyOf(rule) := rule][KeyOf(r)] == r
    {
      assert r in rules ==> KeyOf(r) in Keys(rules);
    }
  }

  lemma {:induction false} ScanStops(raws: seq<RawRule>, i: nat)
    requires i <= |raws|
    ensures Scan(raws[..i]).Failure? ==> Scan(raws) == Scan(raws[..i])
  {
    if i == |raws| {
      assert raws[..i] == raws;
    } else {
      var front := raws[..|raws| - 1];
      ScanStops(front, i);
      assert front[..i] == raws[..i];
    }
  }

  ghost predicate DistinctKeys(raws: seq<RawRule>) {
    forall i, j | 0 <= i < j < |raws| ::
      Key(MethodOf(raws[i]), PathOf(raws[i])) != Key(MethodOf(raws[j]), PathOf(raws[j]))
  }

  ghost predicate DistinctPairs(raws: seq<RawRule>) {
    forall i, j | 0 <= i < j < |raws| ::
      !(MethodOf(raws[i]) == MethodOf(raws[j]) && PathOf(raws[i]) == PathOf(raws[j]))
  }

  /** A document is accepted exactly when every rule is well formed and no two rules
      have the same key; its rules are the normalized ones, in document order. */
  lemma {:induction false} ScanAccepts(raws: seq<RawRule>)
    ensures Scan(raws).Success? <==> (forall raw | raw in raws :: WellFormed(raw)) && DistinctKeys(raws)
    ensures Scan(raws).Success? ==> AllNormalized(raws, Scan(raws).value)
  {
    if raws != [] {
      var n := |raws| - 1;
      ScanAccepts(raws[..n]);
      assert raws == raws[..n] + [raws[n]];
      if Scan(raws[..n]).Success? {
        KeysOfScan(raws, n);
        NormalizedExtends(raws, n, Scan(raws[..n]).value);
      }
    }
  }

  ghost predicate AllNormalized(raws: seq<RawRule>, rules: seq<Rule>) {
    |rules| == |raws| && forall i | 0 <= i < |raws| :: WellFormed(raws[i]) && rules[i] == Normalized(raws[i])
  }

  lemma NormalizedExtends(raws: seq<RawRule>, n: nat, rules: seq<Rule>)
    requires |raws| == n + 1 && AllNormalized(raws[..n], rules)
    ensures WellFormed(raws[n]) ==> AllNormalized(raws, rules + [Normalized(raws[n])])
  {
    forall i | 0 <= i < n ensures WellFormed(raws[i]) && rules[i] == Normalized(raws[i]) {
      assert raws[..n][i] == raws[i];
    }
  }

  lemma KeysOfScan(raws: seq<RawRule>, n: nat)
    requires n < |raws| && Scan(raws[..n]).Success? && AllNormalized(raws[..n], Scan(raws[..n]).value)
    ensures Key(MethodOf(raws[n]), PathOf(raws[n])) in Keys(Scan(raws[..n]).value) <==>
      exists i | 0 <= i < n :: Key(MethodOf(raws[i]), PathOf(raws[i])) == Key(MethodOf(raws[n]), PathOf(raws[n]))
  {
    var rules, key := Scan(raws[..n]).value, Key(MethodOf(raws[n]), PathOf(raws[n]));
    if key in Keys(rules) {
      var r :| r in rules && KeyOf(r) == key;
      var i :| 0 <= i < n && rules[i] == r;
      assert raws[..n][i] == raws[i];
    }
    if i :| 0 <= i < n && Key(MethodOf(raws[i]), PathOf(raws[i])) == key {
      assert raws[..n][i] == raws[i];
      assert KeyOf(rules[i]) == key && rules[i] in rules;
    }
  }

  // ----- keys and pairs -----

  /** Joining with a space loses nothing when the methods hold no space. */
  lemma KeyInjective(m1: string, p1: string, m2: string, p2: string)
    requires NoSpace(m1) && NoSpace(m2)
    ensures Key(m1, p1) == Key(m2, p2) <==> m1 == m2 && p1 == p2
  {
    if Key(m1, p1) == Key(m2, p2) {
      var k := Key(m1, p1);
      assert k[|m1|] == ' ' && k[|m2|] == ' ';
      assert forall i | 0 <= i < |m1| :: k[i] == m1[i];
      assert forall i | 0 <= i < |m2| :: k[i] == m2[i];
      assert |m1| == |m2|;
      assert m1 == k[..|m1|] == m2;
      assert p1 == k[|m1| + 1..] == p2;
    }
  }

  /** So on methods without a space inside, acceptance asks for distinct pairs. */
  lemma SpacelessKeysArePairs(raws: seq<RawRule>)
    requires forall raw | raw in raws :: NoSpace(MethodOf(raw))
    ensures DistinctKeys(raws) <==> DistinctPairs(raws)
  {
    forall i, j | 0 <= i < j < |raws|
      ensures Key(MethodOf(raws[i]), PathOf(raws[i])) == Key(MethodOf(raws[j]), PathOf(raws[j])) <==>
        (MethodOf(raws[i]) == MethodOf(raws[j]) && PathOf(raws[i]) == PathOf(raws[j]))
    {
      assert raws[i] in raws && raws[j] in raws;
      KeyInjective(MethodOf(raws[i]), PathOf(raws[i]), MethodOf(raws[j]), PathOf(raws[j]));
    }
  }

  /** With a space inside a method it asks for more: these two rules are for different
      methods and paths, each is well formed, and together they are refused. */
  lemma DistinctPairsCanBeRefused()
    ensures var raws := [RawRule("A /B", "/C", "1"), RawRule("A", "/B /C", "1")];
      && (forall raw | raw in raws :: WellFormed(raw)) && DistinctPairs(raws)
      && Scan(raws).Failure?
  {
    var a, b := RawRule("A /B", "/C", "1"), RawRule("A", "/B /C", "1");
    CollidingRules(a, b);
    var raws := [a, b];
    assert Key(MethodOf(raws[0]), PathOf(raws[0])) == Key(MethodOf(raws[1]), PathOf(raws[1]));
    ScanAccepts(raws);
  }

  lemma CollidingRules(a: RawRule, b: RawRule)
    requires a == RawRule("A /B", "/C", "1") && b == RawRule("A", "/B /C", "1")
    ensures MethodOf(a) == "A /B" && PathOf(a) == "/C" && MethodOf(b) == "A" && PathOf(b) == "/B /C"
    ensures WellFormed(a) && WellFormed(b) && Key(MethodOf(a), PathOf(a)) == Key(MethodOf(b), PathOf(b))
  {
    assert TrimSpace("A /B") == "A /B" && TrimSpace("/C") == "/C" && TrimSpace("A") == "A";
    assert TrimSpace("/B /C") == "/B /C" && TrimSpace("1") == "1";
    assert ParseDecimal("1") == Some(1);
    assert Key("A /B", "/C") == "A /B /C" == Key("A", "/B /C");
  }

  // ----- lookup -----

  function Lookup(s: Schedule, httpMethod: string, pathTemplate: string): Option<int> {
    var key := Key(ToUpper(httpMethod), pathTemplate);
    if key in s.byKey then Some(s.byKey[key].unitPrice) else None
  }

  /** The plain reading of a schedule: the first rule for the pair. */
  function LinearScan(rules: seq<Rule>, httpMethod: string, pathTemplate: string): Option<int> {
    if rules == [] then None
    else if rules[0].httpMethod == httpMethod && rules[0].pathTemplate == pathTemplate then Some(rules[0].unitPrice)
    else LinearScan(rules[1..], httpMethod, pathTemplate)
  }

  /** What ParseSchedule leaves behind. */
  ghost predicate Valid(s: Schedule) {
    && Indexes(s.byKey, s.rules)
    && (forall i, j | 0 <= i < j < |s.rules| :: KeyOf(s.rules[i]) != KeyOf(s.rules[j]))
    && (forall r | r in s.rules :: ToUpper(r.httpMethod) == r.httpMethod && 0 <= r.unitPrice < TWO_127)
  }

  lemma ParsedIsValid(raws: seq<RawRule>, s: Schedule)
    requires Scan(raws) == Success(s.rules) && Indexes(s.byKey, s.rules)
    ensures Valid(s)
  {
    ScanAccepts(raws);
    forall i, j | 0 <= i < j < |s.rules| ensures KeyOf(s.rules[i]) != KeyOf(s.rules[j]) {
      assert s.rules[i] == Normalized(raws[i]) && s.rules[j] == Normalized(raws[j]);
    }
    forall r | r in s.rules ensures ToUpper(r.httpMethod) == r.httpMethod && 0 <= r.unitPrice < TWO_127 {
      var i :| 0 <= i < |s.rules| && s.rules[i] == r;
      NormalizedIsUpper(raws[i]);
    }
  }

  lemma NormalizedIsUpper(raw: RawRule)
    requires WellFormed(raw)
    ensures ToUpper(Normalized(raw).httpMethod) == Normalized(raw).httpMethod
    ensures 0 <= Normalized(raw).unitPrice < TWO_127
  {
    UpperTwice(TrimSpace(raw.httpMethod));
  }

  lemma UpperTwice(s: string)
    ensures ToUpper(ToUpper(s)) == ToUpper(s)
  {
  }

  lemma {:induction false} LinearScanFinds(rules: seq<Rule>, m: string, p: string)
    ensures LinearScan(rules, m, p).None? <==> forall r | r in rules :: !(r.httpMethod == m && r.pathTemplate == p)
    ensures LinearScan(rules, m, p).Some? ==>
      exists r | r in rules :: r.httpMethod == m && r.pathTemplate == p && r.unitPrice == LinearScan(rules, m, p).value
  {
    if rules != [] {
      LinearScanFinds(rules[1..], m, p);
      assert rules == [rules[0]] + rules[1..];
    }
  }

  lemma LookupOfSpaceless(s: Schedule, m: string, p: string)
    requires Valid(s) && NoSpace(ToUpper(m)) && forall r | r in s.rules :: NoSpace(r.httpMethod)
    ensures Lookup(s, m, p) == LinearScan(s.rules, ToUpper(m), p)
  {
    LinearScanFinds(s.rules, ToUpper(m), p);
    forall r | r in s.rules
      ensures KeyOf(r) == Key(ToUpper(m), p) <==> r.httpMethod == ToUpper(m) && r.pathTemplate == p
    {
      KeyInjective(r.httpMethod, r.pathTemplate, ToUpper(m), p);
    }
  }

  /** Where a rule's method is cut at its first space, the lookup of the cut pair
      finds the rule although no rule is for that pair. */
  lemma LookupOfCutMethod(s: Schedule, r: Rule, k: nat)
    requires Valid(s) && r in s.rules && k < |r.httpMethod| && r.httpMethod[k] == ' ' && NoSpace(r.httpMethod[..k])
    ensures var m, p := r.httpMethod[..k], r.httpMethod[k + 1..] + " " + r.pathTemplate;
      NoSpace(m) && Lookup(s, m, p) != LinearScan(s.rules, ToUpper(m), p)
  {
    var m, p := r.httpMethod[..k], r.httpMethod[k + 1..] + " " + r.pathTemplate;
    assert ToUpper(m) == m by {
      assert forall i | 0 <= i < k :: ToUpper(r.httpMethod)[i] == UpperChar(m[i]);
    }
    assert Key(m, p) == KeyOf(r);
    LinearScanFinds(s.rules, m, p);
    forall q | q in s.rules ensures !(q.httpMethod == m && q.pathTemplate == p) {
      assert KeyOf(q) == KeyOf(r) ==> q == r;
    }
  }

  lemma {:induction false} FirstSpace(s: string) returns (k: nat)
    requires !NoSpace(s)
    ensures k < |s| && s[k] == ' ' && NoSpace(s[..k])
  {
    if s[0] == ' ' {
      k := 0;
    } else {
      var rest := s[1..];
      assert !NoSpace(rest) by {
        var i :| 0 <= i < |s| && s[i] == ' ';
        assert rest[i - 1] == ' ';
      }
      var j := FirstSpace(rest);
      k := j + 1;
      assert forall i | 0 <= i < j :: s[i + 1] == rest[i] == rest[..j][i];
    }
  }

  lemma SpacedMethodDisagrees(s: Schedule, r: Rule) returns (m: string, p: string)
    requires Valid(s) && r in s.rules && !NoSpace(r.httpMethod)
    ensures NoSpace(m) && Lookup(s, m, p) != LinearScan(s.rules, ToUpper(m), p)
  {
    var k := FirstSpace(r.httpMethod);
    LookupOfCutMethod(s, r, k);
    m, p := r.httpMethod[..k], r.httpMethod[k + 1..] + " " + r.pathTemplate;
  }

  lemma UpperKeepsSpaces(m: string)
    ensures NoSpace(ToUpper(m)) <==> NoSpace(m)
  {
    forall i | 0 <= i < |m| ensures ToUpper(m)[i] == ' ' <==> m[i] == ' ' {
    }
  }

  lemma SpacelessLookupsAgree(s: Schedule)
    requires Valid(s) && forall r | r in s.rules :: NoSpace(r.httpMethod)
    ensures forall m, p | NoSpace(m) :: Lookup(s, m, p) == LinearScan(s.rules, ToUpper(m), p)
  {
    forall m, p | NoSpace(m) ensures Lookup(s, m, p) == LinearScan(s.rules, ToUpper(m), p) {
      UpperKeepsSpaces(m);
      LookupOfSpaceless(s, m, p);
    }
  }

  /** The lookup by key agrees with a linear scan of the rules, for every path and
      every method without a space, exactly when no rule's method has a space inside. */
  lemma LookupIsLinearScan(s: Schedule)
    requires Valid(s)
    ensures (forall m, p | NoSpace(m) :: Lookup(s, m, p) == LinearScan(s.rules, ToUpper(m), p)) <==>
      (forall r | r in s.rules :: NoSpace(r.httpMethod))
  {
    if forall r | r in s.rules :: NoSpace(r.httpMethod) {
      SpacelessLookupsAgree(s);
    } else {
      var r :| r in s.rules && !NoSpace(r.httpMethod);
      var m, p := SpacedMethodDisagrees(s, r);
      assert NoSpace(m) && Lookup(s, m, p) != LinearScan(s.rules, ToUpper(m), p);
    }
  }
}
