# Tallybook, modelled and verified in Dafny

Tallybook meters paid HTTP requests, prices them against a published schedule,
builds the Merkle evidence a bill is anchored with, and keeps the payment-channel
commitments that pay it. This project models the parts of it whose correctness a
bill rests on and proves what each promises, for all inputs, all runs and all
behaviours of the database and the network node.

`dafny verify dfyconfig.toml` checks everything (Dafny 4.11).

## What is proved

**Evidence.** A record is an XDR map hashed twice into a leaf; leaves are folded
level by level into a root and one proof per leaf; a proof is checked by folding,
without an index. `MerkleSoundness.MembershipSound` is the end-to-end statement:
if a proof of any length folds a record's leaf to the root, some record of the list
has the same seven fields, or `Walk` exhibits two different byte strings with the
same SHA-256. (That a collision merely exists would say nothing, since a hash of
fixed length always has one; `Walk` computes it from the records and the proof.)
SHA-256 is any function to 32 bytes; nothing else is assumed of it. Behind this
stand the inverse of the XDR encoding (`Xdr.ParseMarshal`), the equality of the
level loop's root with that of the tree split at powers of two
(`MerkleShape.RootIsSplitRoot`), and a closed form for every proof.

**Custody.** `CustodyProtocol` runs any number of `Submit` calls, interleaved step by
step, with database faults, lost replies and crashes. After every run amounts rise
within a channel, no row is changed or lost, an acknowledged commitment is in the
table, and every row is backed by a completed verification, over the bytes prepared for
its own amount, whose verdict it carries.
`RetryLaw` says exactly what a retry returns. The class `Custody.Store` is tied to the
same steps by `SubmitIsRun`.

**Pricing and metering.** A catalog refines "the greatest effective ledger not
above", independently of the order of its entries; the schedule's key index agrees
with a linear scan under an exact condition; a charge is the exact product and its
i128 bound is tight; and over every interleaving of requests the wrapped handler is
called only after exactly one row was written for that request, with the caller and
units it arrived with, from which the charge can be recomputed. `Billing` says which of
these rows can become leaves of the usage tree.

**Migrations.** Over any run of any number of starters, with failures anywhere, the
committed migrations are a prefix of the list, each committed once.

**Submission.** For every behaviour of the node, a transaction is sent at most once,
after an error-free simulation; when other parties' authorization is attached its
resources come from a simulation of the very operation sent; success means a polled
success; and polling takes at most 17 queries.

## Where the code and its documentation differ

The model follows the code. These are the places where a documented promise is
narrower than stated or a plausible property fails; each names a lemma with a concrete
input where it fails, and one with the exact condition under which it holds.

- A retry of a recorded commitment is not always safe, as internal/custody/store.go:110-115
  says: the trigger runs before ON CONFLICT, so a retry below the channel's maximum
  fails (`RetryCanFail`). It is a read of the recorded row exactly while its amount is
  still the maximum (`RetryLaw`).
- A schedule may be refused although no two of its rules have the same method and
  path (`DistinctPairsCanBeRefused`), against internal/meter/schedule.go:74-75: rules are
  keyed by method, a space and path, and a method may contain a space. Acceptance is
  exactly distinct keys (`Schedules.ScanAccepts`); these are distinct pairs when no
  method contains a space.
- The price limit checked when a schedule is loaded is meant to keep charges in range
  (internal/meter/schedule.go:32-36), but it bounds the unit price, not the charge: over all unit
  counts a charge fits exactly when the unit price is at most 2^63
  (`EncodableChargeBound`). The largest accepted price fails at two units
  (`LargestPriceIsAccepted`, `TwoUnitsOverflow`).
- The charged_amount column is described as the i128 range
  (internal/store/migrations/0002_requests.sql:16), but NUMERIC(39, 0) is wider: a request
  can be recorded and served whose row can never become a leaf (`ServedButNotBillable`).
  Everything served can be billed exactly when the unit price is at most 2^64 + 2
  (`ServedIsBillable`).
- The trigger's SELECT MAX sees committed rows only. Two overlapping inserts can
  therefore lower a channel's amount (`OverlapCanLowerTheAmount`);
  `LateWriteKeepsOrder` says exactly when they do not. The custody results take an
  insert, with its trigger and its unique check, as one atomic step.
- A schedule rule and a leaf's endpoint hash are meant to share one identity
  (internal/meter/schedule.go:46-52), but the lookup upper-cases the method and the hash does
  not: the two strings are equal exactly for an upper-case method
  (`EndpointKeyAgrees`); "get" is an input where they differ (`LowerCaseIsHashedApart`).
- The comment at internal/store/migrate.go:58 calls an unparseable version unreachable; a
  name that follows the convention reaches it exactly when its version exceeds an int
  (`LongVersionIsRefused`), as 2^63 does (`FirstLongVersion`).
- Migration versions above 2147483647 pass the parser but not the INTEGER column, so
  the runner can never record them: 2147483648 is one (`WideVersionIsNeverRecorded`), and
  `RerunConverges` carries the exact condition.

## Modelling choices

- SHA-256, ed25519 and strkey decoding are parameters: arbitrary functions. A strkey
  decodes to a version and its raw bytes, or to nothing.
- Database faults, node replies, the clock, cancellation, request ids and timestamps
  are parameters of each step, so every statement holds for all of them. A fault
  either prevents a statement or lets it take effect and loses its reply.
- Go's integers are unbounded here, with the widths written out where they matter:
  the two's-complement halves of an i128, the 32-bit fee, the sequence number, and
  the INTEGER, BIGINT and NUMERIC(39, 0) columns.
- A channel reader is any function from an amount to the bytes its simulation returns,
  or to nothing. Submit takes the reader and the channel's name separately and nothing
  ties them together; `ValidMeansSigned` says what holds when the caller does.
- The helpers the specifications are written in (byte order, white space, letter case,
  numerals, sequence numbers, credential forms, error kinds) are each characterized by a
  lemma that does not use them: see their rows below.
- sort.Slice is a method of which callers know only that it returns an ascending
  permutation; it is not stable.
- A nil pointer or nil error is `None`.
- Long Go functions are split where Dafny needs it: BuildTree's loops are
  `FindDuplicate`, `FoldLevels`, `BuildLevel`, `HandOutPair` and `AppendToAll`;
  invokeAndSubmit's part before the send is `Prepare`, and `Attach` from its second
  simulation on.
- The two copies of the i128 encoder, internal/stellar/xdr.go:88-111 and
  internal/merkle/leaf.go:117-140, are the same code and are modelled once.

## Model

| member | source | states |
|---|---|---|
| `Bytes.CompareTotal` | internal/merkle/tree.go:119-124 | the byte order that sorts a pair is antisymmetric, and two strings compare equal only if they are equal |
| `Bytes.CompareAtFirstDifference` | internal/merkle/tree.go:119-124 | the first byte that differs decides the order, as an unsigned number |
| `Decimals.ValueOfShow` | internal/store/migrate.go:56 | reading decimal digits undoes writing them |
| `Decimals.LeadingZero` | internal/store/migrate.go:17-19 | leading zeros change no version, so 1 and 0001 are the same one |
| `Decimals.PlaceValue` | internal/store/migrate.go:56 | each further decimal digit counts ten times less than the one before it |
| `ScVals.AddressRoundTrip` | internal/stellar/xdr.go:123-149 | an address is encodable exactly from a 32-byte account or contract strkey, and decoding (internal/stellar/xdr.go:261-281) gives its text back; every address value survives decoding and encoding |
| `ScVals.AddressIsOfItsKind` | internal/stellar/xdr.go:123-149 | an account's strkey gives an account address, a contract's a contract address, and anything else its own error |
| `ScVals.SplitI128` | internal/stellar/xdr.go:96-107 | the two halves of an i128 reassemble, as signed high and unsigned low word, to the value |
| `ScVals.EncodeI128` | internal/stellar/xdr.go:88-111 | adding 2^128 to a negative value and reassembling sixteen bytes computes the arithmetic split, and errors exactly outside the range; internal/merkle/leaf.go:117-140 is the same code |
| `ScVals.I128RoundTrip` | internal/stellar/xdr.go:216-233 | encoding succeeds exactly on [-2^127, 2^127-1], and decoding gives the value back; a nil and an out-of-range value have their own errors |
| `ScVals.I128SplitIsOnto` | internal/stellar/xdr.go:216-233 | every pair of halves is the encoding of the value it decodes to |
| `ScVals.DecodeMap` | internal/stellar/xdr.go:295-309 | decoding succeeds exactly on a map with symbol keys and keeps the last value of each key |
| `ScVals.FieldsFindsEveryEntry` | internal/stellar/xdr.go:295-320 | with distinct keys every entry is found under its key |
| `ScVals.FieldsKeepsLast` | internal/stellar/xdr.go:295-309 | a key that occurs more than once has its last entry's value |
| `ScVals.FieldsAreEntries` | internal/stellar/xdr.go:295-309 | the fields are exactly the keys of the entries |
| `Xdr.ParseMarshal` | internal/merkle/leaf.go:81-89 | for every encodable value, however nested, a parser recovers it from its XDR bytes and leaves what follows untouched |
| `Xdr.MarshalPrefixFree` | internal/merkle/leaf.go:81-89 | no encoding is a proper prefix of another, and equal bytes mean equal values |
| `Xdr.MarshalInjective` | internal/merkle/leaf.go:81-89 | two values with the same XDR bytes are the same value |
| `Leaf.EncodableRecords` | internal/merkle/leaf.go:62-70 | a record is encodable exactly when its amount is an i128 and its consumer an account strkey of 32 bytes |
| `Leaf.RecordErrors` | internal/merkle/leaf.go:62-70 | which error a record is refused with: its amount is looked at first, then its consumer |
| `Leaf.DecodeEncodedRecord` | internal/merkle/leaf.go:62-89 | a reader that insists on the seven keys in their order recovers all seven fields from a record's bytes |
| `Leaf.EncodeRecordInjective` | internal/merkle/leaf.go:62-89 | two encodable records have the same bytes exactly when they agree in every field, the consumer as its decoded key |
| `RecordLayout.RecordLength` | internal/merkle/leaf.go:62-89 | every encoded record is 296 bytes long |
| `Leaf.RecordKeysAscend` | internal/merkle/leaf.go:57-80 | a record's map keys are in the strictly ascending order the host requires |
| `RecordLayout.EncodingIsReference` | internal/merkle/leaf.go:62-89 | every encoded record has, byte for byte, the reference layout of its fields, the one the vectors of internal/merkle/leaf_test.go:52 and 66 show |
| `Metering.EndpointHashBinds` | internal/merkle/leaf.go:36-43 | for ASCII methods without a space, endpoint hashes are equal exactly when method and path are, or when two different byte strings with one SHA-256 are exhibited |
| `Heights.HeightIsCeilLog2` | internal/merkle/tree.go:63-89 | the number of levels above n leaves is the base-two logarithm of n, rounded up |
| `Heights.CapIsLeafBound` | internal/merkle/tree.go:10-12 | the 32-node cap is the bound of 2^32 leaves |
| `MerkleTree.FindDuplicate` | internal/merkle/tree.go:45-51 | the map of leaves seen finds a duplicate exactly when there is one, and reports the first |
| `MerkleTree.AppendToAll` | internal/merkle/tree.go:70-75 | exactly the proofs of a group grow, by the one sibling |
| `MerkleTree.HandOutPair` | internal/merkle/tree.go:67-75 | each node of a pair is added to the proofs of the leaves below the other, and to no other proof |
| `MerkleTree.BuildLevel` | internal/merkle/tree.go:63-89 | one pass builds the level above and its groups and hands every leaf the sibling of its ancestor, an odd last node none |
| `MerkleTree.FoldLevels` | internal/merkle/tree.go:56-98 | the level loop ends with the root, and each leaf's proof is its whole path |
| `MerkleTree.BuildTree` | internal/merkle/tree.go:40-99 | success exactly on a non-empty list of distinct leaves of at most 2^32, with root and proofs as specified; each failure names its cause |
| `MerkleTree.PathLength` | internal/merkle/tree.go:91-96 | no proof is longer than the height, and the first leaf's is exactly that long |
| `MerkleTree.Fold` | internal/merkle/tree.go:104-110 | the loop computes the fold of the leaf through the proof |
| `MerkleTree.VerifyProof` | internal/merkle/tree.go:115-117 | a proof is accepted exactly when the fold is the root |
| `MerkleTree.PairHashSymmetric` | internal/merkle/tree.go:119-124 | the sorted-pair hash does not depend on the order of its arguments |
| `MerkleTree.SmallerComesFirst` | internal/merkle/tree.go:119-124 | of two hashes that first differ at byte k, the one with the smaller byte there is hashed first, whichever way round they are given |
| `MerkleTree.PairIsSorted` | internal/merkle/tree.go:119-124 | which preimage is hashed is settled for every pair of hashes |
| `MerkleTree.FoldFromLeaf` | internal/merkle/tree.go:104-110 | folding can be read from the leaf end: one sibling, then the rest |
| `MerkleTree.PathFoldsToRoot` | internal/merkle/tree.go:56-110 | every proof that is built folds its leaf to the root |
| `MerkleShape.RootIsSplitRoot` | internal/merkle/tree.go:63-98 | the level loop's root is the root of the tree that splits its leaves at the largest power of two below their number |
| `MerkleShape.ProofClosedForm` | internal/merkle/tree.go:63-98 | each proof is, level by level, the node at index i / 2^k with its lowest bit flipped, where it exists; level k has n / 2^k nodes, rounded up |
| `MerkleShape.ProofLengths` | internal/merkle/tree.go:10-12 | the proofs of a tree are at most as long as the rounded-up logarithm, and the first is exactly that long |
| `MerkleSoundness.WalkIsSound` | internal/merkle/tree.go:40-124 | following an accepted proof down the tree ends at a record with those bytes or exhibits a hash collision, also for proofs that stop inside the tree or go below a leaf |
| `MerkleSoundness.MembershipSound` | internal/merkle/tree.go:112-117 | a record whose leaf verifies with a proof of any length agrees in every field with a record of the list, or a collision is exhibited |
| `MerkleSoundness.MembershipComplete` | internal/merkle/tree.go:31-33 | the proof at position i verifies for every record with the fields of record i |
| `CommitmentLayout.CommitmentIsReference` | internal/stellar/channel.go:132-163 | every commitment has, byte for byte, the documented layout of its amount, channel and network id |
| `Commitment.BuildCommitmentInjective` | internal/stellar/channel.go:141-163 | two commitments have the same bytes exactly when amount, channel address and network id are equal |
| `Commitment.CommitmentIsNoRecord` | internal/stellar/channel.go:141-163 | a commitment's bytes are never those of a record |
| `Commitment.CommitmentErrors` | internal/stellar/channel.go:141-149 | a commitment is built exactly for an i128 amount and an encodable channel; the amount's error comes first |
| `Commitment.CommitmentKeysAscend` | internal/stellar/channel.go:132-137 | a commitment's map keys are in host order |
| `Commitment.SettleArgsCarryBoth` | internal/stellar/channel.go:262-268 | the two arguments exist exactly for an i128 amount and carry the amount and the signature back |
| `CommitmentsTable.Database.RejectRegression` | internal/store/migrations/0003_commitments.sql:43-58 | the trigger raises exactly when the channel has a row with a higher amount |
| `CommitmentsTable.Database.InsertCommitment` | internal/store/migrations/0003_commitments.sql:12-27 | the statement's reply and new table are those of one atomic insert: trigger, CHECK constraints, unique pair |
| `CommitmentsTable.CurrentMaxIsMax` | internal/store/migrations/0003_commitments.sql:47-49 | the selected maximum is attained by a row of the channel and bounds them all; NULL exactly on an empty channel |
| `CommitmentsTable.InsertKeepsTable` | internal/store/migrations/0003_commitments.sql:22-64 | an insert keeps amounts strictly rising per channel, ids rising, and all constraints, and loses no row |
| `CommitmentsTable.InsertKeepsOtherChannels` | internal/store/migrations/0003_commitments.sql:43-64 | an insert leaves the rows of every other channel as they are |
| `CommitmentsTable.InsertReplies` | internal/custody/store.go:80-84 | a row is written and returned exactly when it is above everything its channel holds and meets the constraints; no row is returned exactly for the channel's maximum, TB001 exactly below it, and then nothing is written |
| `CommitmentsTable.IdsAreUsedUp` | internal/store/migrations/0003_commitments.sql:12-14 | every insert whose amount fits uses up an id, whether or not it writes a row |
| `Custody.Store.Submit` | internal/custody/store.go:121-178 | the method's table and result are those of the specification, which is a run of the protocol's steps |
| `CustodyProtocol.SubmitIsRun` | internal/custody/store.go:121-178 | a Submit nothing interrupts is the run of its four steps |
| `CustodyProtocol.StepKeepsInv` | internal/custody/store.go:121-178 | every step of every call keeps the custody invariant and loses no row and no verification |
| `CustodyProtocol.RowsRise` | internal/store/migrations/0003_commitments.sql:30-36 | after any interleaving, a channel's amounts rise strictly in insertion order |
| `CustodyProtocol.LatestRowIsMaximum` | internal/store/migrations/0003_commitments.sql:43-58 | after any interleaving, a channel's latest row is its maximum |
| `CustodyProtocol.RowsAreKept` | internal/custody/store.go:89-97 | however a run goes on, the rows it has stay in place, unchanged |
| `CustodyProtocol.OtherChannelsUntouched` | internal/custody/store.go:121-178 | a step changes at most the rows of its own call's channel |
| `CustodyProtocol.CustodyHolds` | internal/custody/store.go:89-108 | after any interleaving, every success has its row, every row has a completed verification, of its signature over the bytes the reader prepared for its amount, with its verdict, and a read-back finds its row; the verdicts are those of internal/custody/verify.go:77-98 |
| `CustodyProtocol.ValidMeansSigned` | internal/custody/verify.go:77-98 | when each call's reader is its channel's, a row is valid exactly when its signature verifies under its key over the bytes its channel prepares for its amount |
| `CustodyProtocol.FreshSubmit` | internal/custody/store.go:99-108 | a commitment above its channel's maximum is stored with its verdict, valid or not |
| `CustodyProtocol.IncompleteStoresNothing` | internal/custody/verify.go:77-98 | a verification fails to complete exactly on a missing or non-positive amount, a key that is not 32 bytes or a failed simulation, and then nothing is stored |
| `CustodyProtocol.VerificationErrors` | internal/custody/verify.go:77-91 | which error each incomplete verification ends in |
| `CustodyProtocol.SubmitErrors` | internal/custody/store.go:121-178 | what each outcome of a submit means: the monotonic error exactly for an amount below one its channel holds when the database answered, any fault the plain insert error, and so on for all of them |
| `CustodyProtocol.StaleMeansHigher` | internal/custody/store.go:171-175 | after any interleaving, a call that ended in the monotonic error has a higher row of its channel in the table |
| `CustodyProtocol.FaultsAndTheTable` | internal/custody/store.go:139-148 | a lost reply changes what the caller learns and not what is stored; a statement that fails beforehand stores nothing |
| `CustodyProtocol.CrashEndsCall` | internal/custody/store.go:121-178 | a crash between any two steps changes no row, and the call is never acknowledged |
| `CustodyProtocol.RetryInsert` | internal/custody/store.go:139-177 | a retry's insert changes no row and goes on to the read-back exactly while the amount is the channel's maximum |
| `CustodyProtocol.RetryLaw` | internal/custody/store.go:110-120 | a retry returns the first id and verdict, marked as recorded, exactly when its amount is still the maximum, and the monotonic error otherwise, whatever other calls do in between |
| `CustodyProtocol.RetryCanFail` | internal/custody/store.go:110-115 | after 5 and 10 were recorded, a retry of 5 fails |
| `CustodyRace.LateWriteKeepsOrder` | internal/store/migrations/0003_commitments.sql:43-58 | a row written after its trigger's check keeps the order exactly when no higher amount was committed in between |
| `CustodyRace.OverlapCanLowerTheAmount` | internal/store/migrations/0003_commitments.sql:43-58 | two overlapping inserts of 7 and 10 leave the amounts falling |
| `Sorting.SortSlice` | internal/store/migrate.go:82 | a sort returns an ascending permutation |
| `Sorting.SortIsUnique` | internal/meter/pricing.go:60-62 | with distinct keys there is only one ascending permutation |
| `MigrationFiles.MatchIsConvention` | internal/store/migrate.go:17-19 | a filename matches exactly when it is digits, an underscore, word characters and .sql, in one way only |
| `MigrationFiles.ParseMigrations` | internal/store/migrate.go:38-84 | the scanned files in ascending version order, or the first entry refused |
| `MigrationFiles.LongVersionIsRefused` | internal/store/migrate.go:55-59 | a name that follows the convention is refused for its version exactly when it exceeds an int |
| `MigrationFiles.FirstLongVersion` | internal/store/migrate.go:55-59 | version 2^63 follows the convention and is refused |
| `MigrationFiles.ScanAccepts` | internal/store/migrate.go:33-37 | a directory is accepted exactly when every file follows the convention and can be read and no version is used twice |
| `MigrationFiles.ScanRefusal` | internal/store/migrate.go:44-75 | a directory is refused at its first bad entry, for that entry's first fault |
| `MigrationFiles.AcceptedIsStrict` | internal/store/migrate.go:82-83 | an accepted directory comes back in strictly ascending version order |
| `Migrations.AppliedVersions` | internal/store/migrate.go:147-166 | the map holds exactly the recorded versions |
| `Migrations.Migrate` | internal/store/migrate.go:106-145 | the log, the migrations reported and the error are those of the specification, for every fault at every migration |
| `Migrations.PrefixFrom` | internal/store/migrate.go:96-105 | whatever fails, the log stays a prefix of the list, and what is reported is what was added, up to one commit whose reply was lost |
| `Migrations.MigrateStopsAtFirstFault` | internal/store/migrate.go:116-144 | exactly what a call does under any faults: it applies and reports every missing migration up to the first that meets a fault or does not fit, names that one in its error, and has it in the log only if just the reply to its commit was lost |
| `Migrations.RerunConverges` | internal/store/migrate.go:103-105 | a call without faults reaches the full list exactly when the missing versions fit their column, and the next applies nothing |
| `Migrations.WideVersionIsNeverRecorded` | internal/store/migrate.go:90-93 | version 2147483648 passes the parser and no call ever records it |
| `MigrationProtocol.AppliedIsPrefix` | internal/store/migrate.go:106-145 | after any run of any number of starters the committed migrations are a prefix of the list, each once, and all of them once a starter has returned success |
| `MigrationProtocol.RecoversAfterAnyRun` | internal/store/migrate.go:96-105 | however such a run ended, one call without faults completes the list under the same exact condition |
| `MigrationProtocol.SoloIsMigrate` | internal/store/migrate.go:116-144 | with no other starter in a transaction, the protocol's steps do what the sequential runner does |
| `MigrationProtocol.CallIsMigrate` | internal/store/migrate.go:106-145 | a whole call with no other starter in a transaction is one call of the sequential runner |
| `MigrationProtocol.CrashEndsStarter` | internal/store/migrate.go:96-105 | a crash between any two steps commits nothing, and the starter never returns success |
| `Schedules.ParseSchedule` | internal/meter/schedule.go:81-123 | the rules of the scan with an index of exactly their keys, or the first rule refused and why |
| `Schedules.ParseDecimalOfShow` | internal/meter/schedule.go:108-112 | a unit price is read back from its decimal form, with or without a sign |
| `Schedules.ParseDecimalReadsNumerals` | internal/meter/schedule.go:108-111 | exactly an optional sign followed by decimal digits is read, and every other text is refused |
| `Schedules.NumeralIsRead` | internal/meter/schedule.go:108-111 | a numeral is read as the value of its digits, negated after a minus |
| `Schedules.UpperCase` | internal/meter/schedule.go:93 | the letters a to z become A to Z and nothing else changes |
| `Schedules.TrimSpaceIsMiddle` | internal/meter/schedule.go:93-98 | trimming takes all white space off both ends and nothing else |
| `Schedules.RefusalOf` | internal/meter/schedule.go:92-115 | a rule is refused exactly when it is malformed or its key is taken |
| `Schedules.RefusalReasons` | internal/meter/schedule.go:92-115 | which of the five errors a rule is refused with, in terms of its trimmed method, path, key and price; a price that is no numeral without a minus is invalid |
| `Schedules.ScanRefusal` | internal/meter/schedule.go:92-115 | a document is refused at its first bad rule, with that rule's number and reason |
| `Schedules.ScanAccepts` | internal/meter/schedule.go:72-80 | a document is accepted exactly when every rule is well formed and no two have the same key; the rules are the normalized ones in document order |
| `Schedules.KeyInjective` | internal/meter/schedule.go:142-144 | joining with a space loses nothing when the methods hold no space |
| `Schedules.SpacelessKeysArePairs` | internal/meter/schedule.go:103-106 | without a space in a method, distinct keys are distinct pairs |
| `Schedules.DistinctPairsCanBeRefused` | internal/meter/schedule.go:103-106 | two well-formed rules for different methods and paths are refused as duplicates |
| `Schedules.LookupIsLinearScan` | internal/meter/schedule.go:125-134 | lookup agrees with a linear scan for every path and every method without a space exactly when no rule's method has a space |
| `Pricing.NewCatalog` | internal/meter/pricing.go:51-81 | acceptance exactly of non-empty entries without nil schedules or repeated versions or ledgers; the sorted entries; a refusal names the first problem of the sorted entries |
| `Pricing.CatalogIgnoresOrder` | internal/meter/pricing.go:53-54 | acceptance and the catalog do not depend on the order of the entries |
| `Pricing.VersionAt` | internal/meter/pricing.go:86-99 | the backward walk returns the last entry not above the ledger |
| `Pricing.VersionAtIsInForce` | internal/meter/pricing.go:83-85 | that entry is the one with the greatest effective ledger not above, of the entries in any order; none exactly when the ledger predates all |
| `Pricing.VersionsAreIntervals` | internal/meter/pricing.go:83-99 | the ledgers of one version are consecutive |
| `Pricing.PriceIsConstantInAPeriod` | internal/meter/pricing.go:118-137 | a price is the same at every ledger between two of one version |
| `Pricing.ChargeIsExact` | internal/meter/pricing.go:118-137 | the charge is the exact product with the price that the version in force has for the endpoint, of the entries in any order; no version exactly before them all; on methods without a space the price is that of a plain scan |
| `Pricing.EncodableChargeBound` | internal/meter/pricing.go:135 | a charge is an i128 exactly when the product is at most 2^127-1, and for every unit count exactly when the unit price is at most 2^63 |
| `Pricing.AcceptedPriceCanOverflow` | internal/meter/schedule.go:113-115 | an accepted price lies in [0, 2^127-1], and its charges all fit exactly when it is at most 2^63 |
| `Pricing.LargestPriceIsAccepted` | internal/meter/schedule.go:108-115 | a schedule with a unit price of 2^127-1 is accepted |
| `Pricing.TwoUnitsOverflow` | internal/meter/pricing.go:135 | two units at that price cost 2^128-2, which is no i128 |
| `Metering.ValidateMirrorsTable` | internal/httpapi/metering.go:74-97 | a caller is accepted exactly when it is named and its row would pass the table's protocol and channel constraints |
| `Metering.ValidateErrors` | internal/httpapi/metering.go:74-97 | which of the three errors a caller is refused with |
| `Metering.ServedExactlyWhen` | internal/httpapi/metering.go:191-254 | the wrapped handler is called exactly when caller, ledger, price and request id are all there and the table admits the row; that row, every column from where it belongs, is then the one appended |
| `Metering.UnservedLeavesNoRow` | internal/httpapi/metering.go:245-251 | a request that is not served leaves no row unless only the reply to its insert was lost |
| `Metering.EndpointKeyAgrees` | internal/merkle/leaf.go:36-43 | the endpoint hash's preimage is the schedule's key exactly for an upper-case method |
| `Metering.LowerCaseIsHashedApart` | internal/meter/schedule.go:125-134 | "get" and "GET" have the same price and different hash preimages |
| `Metering.RequestStore.RecordRequest` | internal/store/requests.go:40-73 | the row is appended exactly when the table's column types, constraints and unique id admit it |
| `Metering.Middleware.ServeHTTP` | internal/httpapi/metering.go:191-254 | the rows and whether the wrapped handler is called are those of the specification |
| `MeteringTrace.ServeIsRun` | internal/httpapi/metering.go:191-254 | a handler nothing interrupts is the run of its seven steps, and its last effect is the call of the wrapped handler or the error response |
| `MeteringTrace.CutOffIsNeverServed` | internal/httpapi/metering.go:191-254 | a handler cut off before it is served writes no row and is never served |
| `MeteringTrace.ServedAfterOneRecord` | internal/httpapi/metering.go:171-181 | in every interleaving, each call of the wrapped handler comes after exactly one row, which is in the table and has the consumer, protocol, channel and units with which that request arrived, and happens once; a rejected request is never served |
| `MeteringTrace.StoredRowsReprice` | internal/httpapi/metering.go:231-244 | re-running the price on any stored row gives its charge and version; endpoint hashes match, callers are valid and request ids unique |
| `Billing.LeafCarriesRow` | internal/merkle/leaf.go:24-34 | reading the leaf of a stored row gives that row's columns back, the consumer as its key |
| `Billing.StoredRowIsBillable` | internal/merkle/leaf.go:62-70 | after any run, a stored row encodes as a leaf record exactly when its consumer is an account and unit price times units is at most 2^127-1 |
| `Billing.ServedInNumbers` | internal/store/migrations/0002_requests.sql:14-28 | an undisturbed request is served exactly when caller, price and id are in order and ledger, version, units and charge fit their columns |
| `Billing.ServedIsBillable` | internal/store/migrations/0002_requests.sql:14-16 | for an account's requests of every size, everything served encodes as a leaf record exactly when the unit price is at most 2^64+2 |
| `Billing.ServedButNotBillable` | internal/store/migrations/0002_requests.sql:16 | two units at the largest accepted price are recorded and served, and the row does not encode |
| `Authorization.KeysAreAddresses` | internal/stellar/invoke.go:315-337 | comparing address keys is comparing addresses |
| `Authorization.MergeAuthEntries` | internal/stellar/invoke.go:293-313 | the loops compute the recorded entries not superseded, then the caller's |
| `Authorization.MergeKeepsOrder` | internal/stellar/invoke.go:293-313 | order is kept, all the caller's entries and all recorded ones without an address stay, and exactly the superseded ones are left out |
| `Authorization.MergeByCredentials` | internal/stellar/invoke.go:293-337 | told by credentials: a recorded entry of either address form is left out exactly when an entry of the caller, of either form, names its address; every other entry stays |
| `Authorization.MergeAuthorizesUnion` | internal/stellar/invoke.go:293-313 | the merge authorizes exactly the union of the addresses |
| `Authorization.MergeNeverClashes` | internal/stellar/invoke.go:115-128 | lists without repeated addresses merge into one without, and the caller's entry wins every clash |
| `Invoke.DecodeAuthEntries` | internal/stellar/invoke.go:595-609 | all entries in order, or nothing if one cannot be decoded |
| `Invoke.PollTransaction` | internal/stellar/invoke.go:635-654 | polling stops at the first query that settles it, times out or is cancelled, after at most 17 queries, with that query's result |
| `Invoke.SeventeenQueriesHappen` | internal/stellar/invoke.go:635-654 | the bound of 17 queries is reached |
| `Invoke.Prepare` | internal/stellar/invoke.go:348-481 | a transaction is prepared exactly when one may be sent, and it is that one; a failure's stage says what was so |
| `Invoke.Attach` | internal/stellar/invoke.go:422-481 | from the second simulation on, a transaction results exactly when simulation, resources, fee, signature and encoding are in order, and it carries the resources of the simulation used |
| `Invoke.InvokeAndSubmit` | internal/stellar/invoke.go:339-509 | the calls to the node and the result follow the protocol for every environment |
| `Invoke.SendsAtMostOnce` | internal/stellar/invoke.go:402-486 | at most one send, right after an error-free simulation whose resource data it carries, with the next sequence number; with extra entries that simulation was of exactly that operation, otherwise of it without authorization |
| `Invoke.SequenceFollows` | internal/stellar/invoke.go:363-372 | every transaction the node is shown, simulated or sent, carries the number after the fetched one, however the call ends |
| `Invoke.SentTransaction` | internal/stellar/invoke.go:339-481 | whose transaction is sent, what it calls, its sequence number, its fee and the simulation it rests on |
| `Invoke.PollsUntilSettled` | internal/stellar/invoke.go:635-654 | polling goes on exactly while the transaction is not found, 30 seconds are not over and nobody cancelled |
| `Invoke.FailuresAfterSend` | internal/stellar/invoke.go:482-508 | what each failure after the send means, and the hash it carries |
| `Invoke.SuccessIsOnChain` | internal/stellar/invoke.go:496-508 | success is reported only for an accepted transaction polled as successful, with its own return value, within 17 queries |
| `Invoke.SettledIsReported` | internal/stellar/invoke.go:496-508 | a transaction that may be sent, is accepted and is found successful is reported as such |
| `Invoke.FeeIsExactInRange` | internal/stellar/invoke.go:457-459 | the fee is the exact sum exactly when it fits in 32 bits, and the base fee where the simulation names none |

## Left out

- HTTP, JSON-RPC, base64, JSON and regular-expression engines: input and output plumbing; the model starts at decoded values.
- SHA-256, ed25519 and strkey internals: foreign code, arbitrary functions here.
- Non-ASCII case mapping and white space: strings.ToUpper and strings.TrimSpace are modelled on ASCII.
- pricebook.go, registry.go and events.go: thin wrappers and field-by-field decoders that would add only easy members.
- AuthorizeInvocation and SimulateCall: building one signed entry and one read-only call, with no behaviour across calls.
- What the contracts do on chain, and that BuildCommitment's bytes are those of PrepareCommitment: not in this code.
- internal/config, logging, embedded files and Config.validate: shallow checks with nothing across a run.
- ScVal arms the collector does not build (signed 32-bit, timepoints, 256-bit integers, errors, contract instances) and address kinds other than accounts and contracts.
- Absent optional vectors and maps: the encoder never writes one; the parser rejects them.
- Transaction isolation below one insert: the custody protocol takes an insert as one step; `CustodyRace` shows what that leaves out.
- A nil signature slice, which the database driver may send as NULL: covered only as a statement that fails.
- SQL that commits inside a migration file: a migration's statements are taken to be one transaction with its bookkeeping row.
- Period closing and settlement: the schema exists, code does not.
