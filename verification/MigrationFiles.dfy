/** Reading the numbered migration files of a directory. */
module MigrationFiles {
  import opened Wrappers
  import opened Decimals
  import opened Sorting

  datatype Migration = Migration(version: nat, name: string, filename: string, sql: string)

  /** A directory entry; `content` is None when the file cannot be read. */
  datatype Entry = Entry(name: string, isDir: bool, content: Option<string>)

  datatype ParseError =
    | ReadDirFailed
    | BadFilename(name: string)
    | BadVersion(name: string)
    | VersionUsedTwice(version: nat, prior: string, name: string)
    | ReadFileFailed(name: string)
    | ErrNoMigrations

  const MAX_INT := 0x7FFF_FFFF_FFFF_FFFF

  predicate IsWord(c: char) {
    IsDigit(c) || 'a' <= c <= 'z' || 'A' <= c <= 'Z' || c == '_'
  }

  function DigitRun(s: string): (n: nat)
    ensures n <= |s| && forall i | 0 <= i < n :: IsDigit(s[i])
    ensures n < |s| ==> !IsDigit(s[n])
  {
    if s == [] || !IsDigit(s[0]) then 0 else 1 + DigitRun(s[1..])
  }

  const SUFFIX := ".sql"

  /** The match of ^(\d+)_([a-zA-Z0-9_]+)\.sql$: the two submatches. */
  function MatchFilename(name: string): (r: Option<(string, string)>)
    ensures r.Some? ==> AllDigits(r.value.0)
  {
    var n := DigitRun(name);
    if n == 0 || |name| < n + 6 || name[n] != '_' || name[|name| - 4..] != SUFFIX then None
    else
      var rest := name[n + 1..|name| - 4];
      if forall c | c in rest :: IsWord(c) then Some((name[..n], rest)) else None
  }

  predicate AllWord(s: string) {
    s != [] && forall i | 0 <= i < |s| :: IsWord(s[i])
  }

  /** A filename matches exactly when it is digits, an underscore, word characters
      and .sql, and then in one way only. */
  lemma MatchIsConvention(name: string, digits: string, rest: string)
    ensures MatchFilename(name) == Some((digits, rest)) <==>
      && digits != "" && (forall c | c in digits :: '0' <= c <= '9')
      && rest != "" && (forall c | c in rest ::
           '0' <= c <= '9' || 'a' <= c <= 'z' || 'A' <= c <= 'Z' || c == '_')
      && name == digits + "_" + rest + ".sql"
  {
    MatchIsSplit(name, digits, rest);
    if digits != "" && (forall c | c in digits :: '0' <= c <= '9') {
      assert forall i | 0 <= i < |digits| :: digits[i] in digits;
    }
    if rest != "" && forall c | c in rest :: IsWord(c) {
      assert forall i | 0 <= i < |rest| :: rest[i] in rest;
    }
  }

  lemma MatchIsSplit(name: string, digits: string, rest: string)
    ensures MatchFilename(name) == Some((digits, rest)) <==>
      AllDigits(digits) && AllWord(rest) && name == digits + "_" + rest + SUFFIX
  {
    if AllDigits(digits) && AllWord(rest) && name == digits + "_" + rest + SUFFIX {
      DigitRunIs(name, |digits|);
      assert name[..|digits|] == digits;
      assert name[|digits| + 1..|name| - 4] == rest;
      assert name[|name| - 4..] == SUFFIX;
    }
    if MatchFilename(name) == Some((digits, rest)) {
      var n := DigitRun(name);
      assert name == name[..n] + [name[n]] + name[n + 1..|name| - 4] + name[|name| - 4..];
    }
  }

  lemma {:induction false} DigitRunIs(s: string, n: nat)
    requires n < |s| && !IsDigit(s[n]) && forall i | 0 <= i < n :: IsDigit(s[i])
    ensures DigitRun(s) == n
  {
    if n > 0 {
      DigitRunIs(s[1..], n - 1);
    }
  }

  /** One file, apart from whether its version was seen before. */
  function Read(e: Entry): Result<Migration, ParseError> {
    match MatchFilename(e.name)
    case None => Failure(BadFilename(e.name))
    case Some((digits, rest)) =>
      var version := Value(digits);
      if version > MAX_INT then Failure(BadVersion(e.name))
      else if e.content.None? then Failure(ReadFileFailed(e.name))
      else Success(Migration(version, rest, e.name, e.content.value))
  }

  /** A name that follows the convention is refused for its version exactly when no
      int can hold that version. */
  lemma LongVersionIsRefused(digits: string, rest: string, content: Option<string>)
    requires AllDigits(digits) && AllWord(rest)
    ensures var name := digits + "_" + rest + SUFFIX;
      Read(Entry(name, false, content)) == Failure(BadVersion(name)) <==> Value(digits) > 9223372036854775807
  {
    MatchIsSplit(digits + "_" + rest + SUFFIX, digits, rest);
  }

  /** The first such version, 2^63. */
  lemma FirstLongVersion(content: Option<string>)
    ensures var name := Show(9223372036854775808) + "_" + "a" + ".sql";
      MatchFilename(name).Some? && Read(Entry(name, false, content)) == Failure(BadVersion(name))
  {
    MatchIsSplit(Show(MAX_INT + 1) + "_" + "a" + SUFFIX, Show(MAX_INT + 1), "a");
    LongVersionIsRefused(Show(MAX_INT + 1), "a", content);
    ValueOfShow(MAX_INT + 1);
  }

  /** The migrations of the readable files, in directory order. */
  function Files(entries: seq<Entry>): seq<Migration> {
    if entries == [] then []
    else
      var e := entries[|entries| - 1];
      Files(entries[..|entries| - 1]) + (if !e.isDir && Read(e).Success? then [Read(e).value] else [])
  }

  ghost predicate AllRead(entries: seq<Entry>) {
    forall e | e in entries && !e.isDir :: Read(e).Success?
  }

  function Version(): Migration -> int {
    (m: Migration) => m.version
  }

  /** The loop over the directory: the files so far, or the first entry refused. */
  function Scan(entries: seq<Entry>): Result<seq<Migration>, ParseError> {
    if entries == [] then Success([])
    else
      var e := entries[|entries| - 1];
      var ms :- Scan(entries[..|entries| - 1]);
      if e.isDir then Success(ms)
      else
        match MatchFilename(e.name)
        case None => Failure(BadFilename(e.name))
        case Some((digits, rest)) =>
          var version := Value(digits);
          if version > MAX_INT then Failure(BadVersion(e.name))
          else
            match FileWith(ms, version)
            case Some(prior) => Failure(VersionUsedTwice(version, prior, e.name))
            case None =>
              if e.content.None? then Failure(ReadFileFailed(e.name))
              else Success(ms + [Migration(version, rest, e.name, e.content.value)])
  }

  /** The name of the file that uses a version. */
  function FileWith(ms: seq<Migration>, version: nat): (r: Option<string>)
    ensures r.None? <==> forall m | m in ms :: m.version != version
  {
    if ms == [] then None
    else if ms[|ms| - 1].version == version then Some(ms[|ms| - 1].filename)
    else
      assert ms == ms[..|ms| - 1] + [ms[|ms| - 1]];
      FileWith(ms[..|ms| - 1], version)
  }

  /** The map of versions seen says what a search of the files says. */
  ghost predicate Seen(seen: map<nat, string>, ms: seq<Migration>) {
    forall v: nat :: (if v in seen then Some(seen[v]) else None) == FileWith(ms, v)
  }

  /** ParseMigrations returns the scanned files in ascending version order, or the
      first entry the scan refuses. */
  method ParseMigrations(listing: Option<seq<Entry>>) returns (r: Result<seq<Migration>, ParseError>)
    ensures match r
      case Success(ms) =>
        listing.Some? && Scan(listing.value).Success? && ms != []
        && multiset(ms) == multiset(Scan(listing.value).value) && Ascending(ms, Version())
      case Failure(ReadDirFailed) => listing == None
      case Failure(ErrNoMigrations) => listing.Some? && Scan(listing.value) == Success([])
      case Failure(e) => listing.Some? && Scan(listing.value) == Failure(e)
  {
    if listing.None? {
      return Failure(ReadDirFailed);
    }
    var entries := listing.value;
    var migrations: seq<Migration> := [];
    var seen: map<nat, string> := map[];
    for i := 0 to |entries|
      invariant Scan(entries[..i]) == Success(migrations) && Seen(seen, migrations)
    {
      var e := entries[i];
      assert entries[..i + 1][..i] == entries[..i];
      ScanStops(entries, i + 1);
      if e.isDir {
        continue;
      }
      var submatches := MatchFilename(e.name);
      if submatches.None? {
        return Failure(BadFilename(e.name));
      }
      var version := Value(submatches.value.0);
      if version > MAX_INT {
        return Failure(BadVersion(e.name));
      }
      assert (if version in seen then Some(seen[version]) else None) == FileWith(migrations, version);
      if version in seen {
        return Failure(VersionUsedTwice(version, seen[version], e.name));
      }
      if e.content.None? {
        return Failure(ReadFileFailed(e.name));
      }
      var m := Migration(version, submatches.value.1, e.name, e.content.value);
      SeenGrows(seen, migrations, m);
      seen := seen[version := e.name];
      migrations := migrations + [m];
    }
    assert entries[..|entries|] == entries;
    if |migrations| == 0 {
      return Failure(ErrNoMigrations);
    }
    var sorted := SortSlice(migrations, Version());
    assert |multiset(sorted)| == |multiset(migrations)|;
    r := Success(sorted);
  }

  lemma SeenGrows(seen: map<nat, string>, ms: seq<Migration>, m: Migration)
    requires Seen(seen, ms)
    ensures Seen(seen[m.version := m.filename], ms + [m])
  {
    assert (ms + [m])[..|ms|] == ms;
  }

  /** Once an entry is refused nothing after it is looked at. */
  lemma {:induction false} ScanStops(entries: seq<Entry>, i: nat)
    requires i <= |entries|
    ensures Scan(entries[..i]).Failure? ==> Scan(entries) == Scan(entries[..i])
  {
    if i == |entries| {
      assert entries[..i] == entries;
    } else {
      var front := entries[..|entries| - 1];
      ScanStops(front, i);
      assert front[..i] == entries[..i];
    }
  }

  /** Why an entry is refused after the files before it: the first thing wrong with its
      name, its version's size, its version's use so far, and its content. */
  ghost predicate Refuses(ms: seq<Migration>, e: Entry, error: ParseError) {
    var match' := MatchFilename(e.name);
    && !e.isDir
    && match error
       case BadFilename(name) => name == e.name && match'.None?
       case BadVersion(name) => name == e.name && match'.Some? && Value(match'.value.0) > MAX_INT
       case VersionUsedTwice(version, prior, name) =>
         name == e.name && match'.Some? && Value(match'.value.0) == version <= MAX_INT
         && exists m | m in ms :: m.version == version && m.filename == prior
       case ReadFileFailed(name) =>
         name == e.name && match'.Some? && Value(match'.value.0) <= MAX_INT && e.content.None?
         && forall m | m in ms :: m.version != Value(match'.value.0)
       case _ => false
  }

  /** A directory is refused at its first bad entry, for what is wrong with it. */
  lemma {:induction false} ScanRefusal(entries: seq<Entry>) returns (i: nat)
    requires Scan(entries).Failure?
    ensures i < |entries| && Scan(entries[..i]).Success?
    ensures Refuses(Scan(entries[..i]).value, entries[i], Scan(entries).error)
  {
    var n := |entries| - 1;
    if Scan(entries[..n]).Failure? {
      i := ScanRefusal(entries[..n]);
      assert entries[..n][..i] == entries[..i];
    } else {
      i := n;
      var ms := Scan(entries[..n]).value;
      if MatchFilename(entries[n].name).Some? {
        PriorIsAFile(ms, Value(MatchFilename(entries[n].name).value.0));
      }
    }
  }

  lemma {:induction false} PriorIsAFile(ms: seq<Migration>, version: nat)
    ensures FileWith(ms, version).Some? ==>
      exists m | m in ms :: m.version == version && m.filename == FileWith(ms, version).value
  {
    if ms != [] {
      var n := |ms| - 1;
      PriorIsAFile(ms[..n], version);
      assert ms == ms[..n] + [ms[n]];
    }
  }

  /** A directory is accepted exactly when every file in it follows the convention
      and can be read, and no version is used twice. */
  lemma {:induction false} ScanAccepts(entries: seq<Entry>)
    ensures Scan(entries).Success? <==> AllRead(entries) && DistinctBy(Files(entries), Version())
    ensures Scan(entries).Success? ==> Scan(entries).value == Files(entries)
  {
    if entries != [] {
      var front, e := entries[..|entries| - 1], entries[|entries| - 1];
      ScanAccepts(front);
      assert entries == front + [e];
      assert AllRead(entries) <==> AllRead(front) && (e.isDir || Read(e).Success?);
      if Scan(front).Success? {
        ScanStep(front, e);
      }
      assert Files(front) + [] == Files(front);
      if Read(e).Success? {
        DistinctExtends(Files(front), Read(e).value);
      }
    }
  }

  /** One more entry: a directory is passed over, a file must read and be the first
      of its version. */
  lemma ScanStep(front: seq<Entry>, e: Entry)
    requires Scan(front).Success?
    ensures Scan(front + [e]).Success? <==>
      e.isDir || (Read(e).Success? && FileWith(Scan(front).value, Read(e).value.version).None?)
    ensures Scan(front + [e]).Success? ==>
      Scan(front + [e]).value == Scan(front).value + (if e.isDir then [] else [Read(e).value])
  {
    assert (front + [e])[..|front|] == front;
    assert Scan(front).value + [] == Scan(front).value;
  }

  lemma OneFile(e: Entry)
    requires !e.isDir && Read(e).Success?
    ensures Scan([e]) == Success([Read(e).value])
  {
    var front: seq<Entry> := [];
    assert Scan(front) == Success([]);
    ScanStep(front, e);
    assert front + [e] == [e];
    assert [] + [Read(e).value] == [Read(e).value];
  }

  lemma DistinctExtends(ms: seq<Migration>, m: Migration)
    ensures DistinctBy(ms + [m], Version()) <==> DistinctBy(ms, Version()) && FileWith(ms, m.version).None?
  {
    var all := ms + [m];
    if DistinctBy(all, Version()) {
      forall i, j | 0 <= i < j < |ms| ensures Version()(ms[i]) != Version()(ms[j]) {
        assert all[i] == ms[i] && all[j] == ms[j];
      }
      forall k | k in ms ensures k.version != m.version {
        var i :| 0 <= i < |ms| && ms[i] == k;
        assert Version()(all[i]) != Version()(all[|ms|]);
      }
    }
  }

  /** An accepted directory comes back sorted without ties, whatever the order in
      which the directory listed it. */
  lemma AcceptedIsStrict(entries: seq<Entry>, ms: seq<Migration>)
    requires Scan(entries).Success?
    requires multiset(ms) == multiset(Scan(entries).value) && Ascending(ms, Version())
    ensures forall i, j | 0 <= i < j < |ms| :: ms[i].version < ms[j].version
    ensures StrictlyAscending(ms, Version())
  {
    ScanAccepts(entries);
    DistinctInAnyOrder(Scan(entries).value, ms, Version());
    forall i, j | 0 <= i < j < |ms| ensures ms[i].version < ms[j].version {
      assert Version()(ms[i]) < Version()(ms[j]);
    }
  }
}
