# A model of yass-orm's rewriting, transaction and schema-sync machinery

yass-orm speaks SQL to MySQL, PostgreSQL and SQLite. This project models the parts of it whose correctness does not show
in any single function: the SQL scanners and rewriters, the transaction machinery over one SQLite connection, the
reconciliation of declared indexes with the catalog, the resumable collation migration, decycle/retrocycle and the
promise pool. Code that works by changing variables, fields or shared objects is modelled by methods and classes and
proved against specification functions; what the code is for is then proved about those functions.

## The components

* **MySQL string-literal normaliser** (`MySqlLexer`, `MySqlRespell`, `MySqlTransform`, `MySqlProgram`,
  `MySqlLiterals`). `Lex` reads a suffix of the statement at a time; the scanning loops, the statement splitter and the
  rewrite are proved equal to it and to `Normalize`. `Value` is the meaning of a quoted literal after the section "String Literals" of the MySQL 8.0
  Reference Manual (11.1.1), default `sql_mode`. Main results: scanning the rewritten text gives the same program exactly
  when no rewritten literal touches a single-quoted run, and normalising is idempotent on every text. `MySqlLiterals`
  says letter by letter what becomes of an escape, in which statements.
* **Transactions** (`TransactionMeaning`, `Transactions`). Callbacks are finite trees of writes, throws and nested
  transaction calls. `Connection` has a savepoint stack, pragmas and a journal of lifecycle steps. Running nested calls
  through savepoints gives exactly the savepoint-free `Meaning`; root and retried transactions are all-or-nothing for
  every pattern of lifecycle failures, and a retried one ends as the first attempt does that no lock conflict undid.
* **The SQLite lease and findOrCreate** (`SqliteLease`, `FindOrCreate`, `FindOrCreateRetry`). The lease queue and the
  query gate down to their promises, with one FIFO job queue as section 9.5 of ECMA-262 asks. Runs interleave requests,
  outside queries, releases and jobs in any order; each is safe, and jobs and releases alone bring it to rest. On top of it, any number of concurrent `findOrCreate` calls, statement
  by statement; and one retried call, attempt by attempt, with the `fields` object its attempts share.
* **Index reconciliation** (`IndexSync`, `IndexNames`, `IndexColumns`, `IndexSpecs`, `IndexEntries`). A pass over the
  declared indexes against an abstract dialect: which statements fail, whether every index is as declared afterwards, and
  when a second pass is silent; physical names; columns and indexes as schemas write them. Then the statements as they
  are printed, read by the server (`IndexStatements`), stored and reported, and which schemas settle in one pass, on MySQL
  (`MySqlIndex`, `MySqlJsonIndex`, `MySqlSync`), SQLite (`QuotedIndex`, `SqliteIndexText`, `SqliteSync`) and PostgreSQL (`QuotedIndex`,
  `PostgresJsonPath`, `PostgresJsonRoundTrip`, `PostgresSync`).
* **Partial-index predicates** (`IndexPredicate`, `IndexPredicateMeaning`, `IndexPredicateText`). Repairing AND/OR
  precedence on a left-associated tree, its three-valued meaning, and the canonical comparison text.
* **Decycle and retrocycle** (`Decycle`, `Retrocycle`). A heap of arrays and plain objects is copied to the tree that
  JSON.stringify writes, and the tree is linked in place; the round trip gives an isomorphic graph exactly when the walk
  over the original drops no slot.
* **Link-collation migration** (`LinkCollation`), **named to positional placeholders** (`PostgresTokens`,
  `PostgresParams`, `PostgresBinding`, `PostgresStatement`), **promisePoolMap** (`PromisePool`).
* `Texts`, `Words`, `Numerals` and `Wrappers` hold white space, identifiers, decimal numerals and `Option`.

## Where the code does not do what its documentation says

These are results about the code as it is. Each has an exact condition and a lemma or method at an input that fails.

* A double-quoted literal that touches a single-quoted one merges with it after rewriting (`MySqlProgram.TokensSurvive`;
  `MySqlProgram.TouchingRunsMerge`).
* A callback that throws a falsy value is rolled back, yet the transaction resolves normally
  (`Transactions.ResolvesUncommittedExactlyWhen`; `Transactions.ThrowUndefined`). Callbacks without falsy throws are safe
  (`Transactions.ResolvesExactlyWhen`).
* A retried `findOrCreate` searches with the id an earlier attempt wrote into `fields`, overlooks every row without it
  and makes a second one (`FindOrCreateRetry.DuplicatesExactlyWhen`; `FindOrCreateRetry.SecondRow`).
* `resolvePhysicalIndexName` says that it is idempotent; it is not for a table whose name leaves no room for the hash
  (`IndexNames.ResolveTwiceExactlyWhen`; `IndexNames.SixtyCharacterTable`). Two declared names can get one physical name
  (`IndexNames.SameNameExactlyWhen`; `IndexNames.PrefixedTwinsMeet`, `IndexNames.CutNameMeetsUncut`).
* Sync looks up declared indexes in a plain object, so an absent index called like a property of every object
  (`constructor`, `toString`) seems to be there. On MySQL a DROP INDEX of it fails, and once it exists the catalog cannot
  be read any more; a raw-SQL index of such a name is never created (`IndexSync.PassGoesWellExactlyWhen`;
  `MySqlSync.InheritedNameFails`, `IndexEntries.InheritedRawIsNeverCreated`). The length of a column called so is looked
  up in the same way: MySQL refuses the index, elsewhere it is rebuilt on every pass
  (`MySqlSync.SignatureReadsBackExactlyWhen`; `MySqlSync.InheritedColumnIsRefused`,
  `IndexSpecs.InheritedIsNeverReported`).
* The SQLite catalog reader takes the wrong text for an expression column behind a named column
  (`SqliteIndexText.ReadsRightExactlyWhen`; `SqliteSync.AccessorBehindColumn`). Even where it takes the right one, an
  index with a JSON accessor, a length or an ascending order is rebuilt on every pass on SQLite
  (`SqliteSync.SyncSqliteTwice`).
* On MySQL an explicit `ASC`, a lower-case `desc` behind a length, and any length or direction of a text column other
  than the implicit one make the index be rebuilt on every pass (`MySqlIndex.ColumnReadsBackExactlyWhen`,
  `MySqlSync.SyncMySqlTwice`; `MySqlSync.AscendingIsRebuilt`).
* On PostgreSQL JSON array subscripts read back in another spelling
  (`PostgresJsonRoundTrip.AccessorReadsBackExactlyWhen`; `PostgresSync.SubscriptIsRebuilt`), and an index with an accessor
  beside any other column reads back as one column (`PostgresSync.SyncPostgresTwice`; `PostgresSync.AccessorBesideColumn`);
  a length or an ascending order is not reported there either. A predicate that PostgreSQL prints in a form that the
  comparison does not fold (`a BETWEEN 1 AND 5`) never matches (`PostgresSync.SyncPostgresTwice`;
  `PostgresSync.RewrittenPredicateIsRebuilt`). All these indexes are rebuilt on every pass.
* On PostgreSQL a parameter called like a property of every object (`constructor`, `toString`) is never bound, and a cast
  to a type that is also the name of a parameter (`a::text`) is taken for it (`PostgresBinding.ValuesReachTheirNames`;
  `PostgresBinding.InheritedIsNotBound`, `PostgresBinding.CastIsTaken`).
* `JSON.decycle` drops the named slots of arrays and an object's own `__proto__`, so `JSON.retrocycle` does not bring such
  graphs back (`Retrocycle.RoundTrip`; `Retrocycle.NamedSlotIsLost`, `Retrocycle.ProtoIsLost`).

## Model

| member | source | states |
|---|---|---|
| MySqlLexer.ScanQuotedRun | lib/sql-transform/MySQLSqlTransformer.js:114-133 | the loop finds the end of a quoted run as the suffix reading defines it: doubled delimiters and, outside backticks, backslash escapes do not end it; -1 when it never ends |
| MySqlLexer.ScanMySqlSql | lib/sql-transform/MySQLSqlTransformer.js:154-227 | the scanning loop yields the tokens and the unterminated flag of the suffix reading `Lex` |
| MySqlLexer.LexCoversText | lib/sql-transform/MySQLSqlTransformer.js:154-227 | the tokens of a text that scans to its end make up that text, nothing lost and nothing added |
| MySqlLexer.RunIsClosed | lib/sql-transform/MySQLSqlTransformer.js:114-133 | a scanned run ends in its delimiter, holds no earlier end, and is not followed by the delimiter |
| MySqlLexer.NoTwinNeighbours | lib/sql-transform/MySQLSqlTransformer.js:154-227 | two runs of one delimiter, or two plain texts, are never neighbouring tokens |
| MySqlRespell.FuseIsIdentityWhen | lib/sql-transform/MySQLSqlTransformer.js:366-383 | reading touching single-quoted runs as one changes the token list exactly when two of them touch, and then shortens it |
| MySqlRespell.LexRespelled | lib/sql-transform/MySQLSqlTransformer.js:366-383 | any respelling of double-quoted tokens as single-quoted ones scans back to the respelled tokens, touching single-quoted runs fused |
| MySqlTransform.DecodeDoubleQuotedLiteral | lib/sql-transform/MySQLSqlTransformer.js:37-73 | the decoding loop computes the value MySQL gives the literal |
| MySqlTransform.EncodeRoundTrip | lib/sql-transform/MySQLSqlTransformer.js:87-89 | for every value, the single-quoted spelling denotes that value again and never closes early |
| MySqlTransform.LeadingKeywordOf | lib/sql-transform/MySQLSqlTransformer.js:289-307 | the search loop finds the keyword that a fold over the statement's tokens defines |
| MySqlTransform.SplitStatements | lib/sql-transform/MySQLSqlTransformer.js:236-259 | the splitting loop yields the statements defined token by token |
| MySqlTransform.SplitIsOnePass | lib/sql-transform/MySQLSqlTransformer.js:236-383 | splitting at semicolons, gating each statement by its keyword and joining again rewrites exactly what one pass over the unsplit tokens would |
| MySqlTransform.TransformSqlForMySQL | lib/sql-transform/MySQLSqlTransformer.js:344-393 | text, mode and number of rewrites are those of `Normalize` |
| MySqlProgram.TokensSurvive | lib/sql-transform/MySQLSqlTransformer.js:344-393 | the rewritten text scans to its end and to the rewritten tokens, exactly when no literal to be rewritten touches a single-quoted run; otherwise tokens are lost |
| MySqlProgram.SameProgram | lib/sql-transform/MySQLSqlTransformer.js:344-393 | without such touching, each double-quoted literal of a rewritable statement comes back as a single-quoted one with the same value and every other token verbatim |
| MySqlProgram.Idempotent | lib/sql-transform/MySQLSqlTransformer.js:344-393 | normalising twice is normalising once, for every text |
| MySqlProgram.TouchingRunsMerge | lib/sql-transform/MySQLSqlTransformer.js:375 | a three-token statement whose rewritten text has fewer tokens |
| MySqlLiterals.EscapeIsDecoded | lib/sql-transform/MySQLSqlTransformer.js:12-89 | in a SELECT, INSERT, UPDATE, DELETE or REPLACE statement, whatever the case of the keyword, the escapes 0, b, t, n, r and Z of a double-quoted literal come out as the control characters of code 0, 8, 9, 10, 13 and 26, `%` and `_` keep their backslash, and any other letter stands for itself |
| MySqlLiterals.QuoteIsDecoded | lib/sql-transform/MySQLSqlTransformer.js:37-89 | a doubled double quote comes out single and a single quote doubled |
| MySqlLiterals.LiteralIsRespelled | lib/sql-transform/MySQLSqlTransformer.js:344-393 | in such a statement any literal that is read to its end is replaced by the single-quoted spelling of its value, and nothing else changes |
| MySqlLiterals.OtherStatementIsKept | lib/sql-transform/MySQLSqlTransformer.js:276-383 | a single statement led by any other word comes back unchanged |
| TransactionMeaning.MeaningIsSurvivors | lib/transactions.js:18-43 | running a callback has the effect of its surviving writes in order, where a nested call keeps all of its writes or none |
| TransactionMeaning.NestedSuccessInlines | lib/transactions.js:18-43 | a nested call that succeeds is worth its body written in place |
| TransactionMeaning.NestedFailureVanishes | lib/transactions.js:18-43 | a nested call whose failure is caught is worth nothing |
| TransactionMeaning.ReadOnlyWritesNothing | lib/dialects/SQLiteDialect.js:849-878 | a read-only transaction leaves no write behind |
| Transactions.Connection.ReleaseSavepoint | lib/transactions.js:32-37 | RELEASE forgets the youngest savepoint of that name and everything above it |
| Transactions.Connection.RollbackTo | lib/transactions.js:36 | ROLLBACK TO restores the rows of the youngest savepoint of that name, which stays on the stack |
| Transactions.RunCallback | lib/transactions.js:18-43 | a callback run over savepoints has its savepoint-free meaning and leaves the savepoint stack as it found it |
| Transactions.RunNestedTransaction | lib/transactions.js:18-43 | so does a nested call, whichever of its SAVEPOINT, callback and first RELEASE fails |
| Transactions.IsRetryableTransactionError | lib/transactions.js:111-131 | the loop over the causes finds a lock conflict exactly when some error of the chain is one |
| Transactions.RetryableExactlyWhen | lib/transactions.js:111-131 | an error is taken up again exactly when it is an error object not marked as committed and some error down the chain of its causes is a lock conflict: a code or, where that is empty, an SQL state that begins with SQLITE_BUSY or SQLITE_LOCKED or is one of the four listed, or errno 1205 or 1213 |
| Transactions.BeginTransaction | lib/dialects/SQLiteDialect.js:849-878 | either the transaction is open with the pragmas asked for and the earlier ones returned, or nothing is open and the pragmas are back |
| Transactions.CleanupTransaction | lib/dialects/SQLiteDialect.js:880-884 | a clean cleanup puts both pragmas back to what they were |
| Transactions.RunRootTransaction | lib/transactions.js:45-109 | for every pattern of failures: all of the callback's meaning is published or nothing, the journal lists exactly the lifecycle steps, a committed failure is never retryable, the pragmas are restored, and the outcome is the first truthy one of the primary, cleanup and release errors |
| Transactions.ResolvesUncommittedExactlyWhen | lib/transactions.js:93-108 | when the driver raises error objects, an attempt resolves normally without a commit exactly when it began, its callback's surviving outcome is a falsy throw, and cleaning up and releasing succeeded |
| Transactions.TruthyToTheEnd | lib/transactions.js:18-43 | a callback in which nothing at any depth throws a falsy value never ends with one |
| Transactions.ResolvesExactlyWhen | lib/transactions.js:93-108 | for such a callback an attempt resolves normally exactly when it committed and was cleaned up and released |
| Transactions.ThrowUndefined | lib/transactions.js:93-108 | a callback that writes and throws a falsy value is rolled back and the transaction resolves normally |
| Transactions.StepsAreOrderly | lib/transactions.js:45-109 | in one attempt the lease is released exactly once if acquired, the callback runs at most once, and nothing but cleanup and release follows a commit |
| Transactions.RunTransaction | lib/transactions.js:133-164 | for every pattern of failures of all the attempts: the callback runs at most maxRetries + 1 times, at most one attempt commits and it is the last, every lease is released once, only retryable failures are retried, a normal ending of a callback without falsy throws means a commit, and the rows are the committing attempt's, in the access mode asked for or, with clean cleanups, the connection's, or unchanged. Where no cleanup fails and a failed transaction can be undone, outcome and rows are exactly those of the first attempt that is not taken up again |
| Transactions.TriedAgainExactlyWhen | lib/transactions.js:133-164 | a failing attempt with retries left is followed by the others when its error is a lock conflict, at any depth, of a transaction that has not committed, and is the outcome otherwise |
| Transactions.RetryAfterBusy | lib/transactions.js:133-164 | an attempt whose connection is refused with code SQLITE_BUSY, whatever follows it, and a clean second attempt end in the commit of the second |
| SqliteLease.RunIsSafe | lib/dialects/SQLiteDialect.js:721-847 | in every run leases are granted one at a time in request order, and no outside query executes between a grant and its release |
| SqliteLease.JobKeepsInv | lib/dialects/SQLiteDialect.js:820-847 | a wake-up or a held-back query executed from the job queue keeps the protocol's invariant: no second wake-up can slip in before the grant |
| SqliteLease.ReleaseTwiceDoesNothing | lib/dialects/SQLiteDialect.js:839-846 | releasing a lease again changes nothing, whoever holds it now |
| SqliteLease.RunConserves | lib/dialects/SQLiteDialect.js:721-728 | in every run each issued query was executed once, is due, or is held back |
| SqliteLease.NothingIsLost | lib/dialects/SQLiteDialect.js:721-847 | once no job is due and nobody holds the lease, every request had its turn and every query executed exactly once |
| SqliteLease.AnyoneMayAct | lib/dialects/SQLiteDialect.js:721-847 | in every run the lease may be asked for and a query issued at any time |
| SqliteLease.EveryTurnCounts | lib/dialects/SQLiteDialect.js:721-847 | every due job and every release by a holder takes a turn of some request or leaves one job less |
| SqliteLease.RestIsReached | lib/dialects/SQLiteDialect.js:721-847 | from wherever a run has come to, jobs and releases alone lead to a state without due jobs in which every lease was granted and given back |
| FindOrCreate.OneRowOneCreator | lib/dbh.js:1085-1169 | any number of concurrent calls in any interleaving: a free key ends with one new row, of the given and default fields, returned by all and created by exactly one; a matching row is returned by all; a conflicting one fails all; otherwise the table is as it was |
| FindOrCreate.NeverStuck | lib/dbh.js:1085-1169 | in every run, while a call is unfinished something can still happen |
| FindOrCreate.EveryMoveCounts | lib/dbh.js:1085-1169 | every move other than a new call or an outside query brings the calls nearer to their end, so no run goes on for ever without finishing them |
| FindOrCreateRetry.Create | lib/dbh.js:922-973 | `create` writes a missing id into the caller's object, before the INSERT when ids are generated and behind it when the database gives them, and fails on a key that exists |
| FindOrCreateRetry.IdIsWrittenExactlyWhen | lib/dbh.js:934-956 | an attempt that creates writes an id into the fields exactly when they had none, a null or an empty one: the generated one or the one the database gave |
| FindOrCreateRetry.FieldsAtIs | lib/dbh.js:934-956 | over the attempts of one call the object is the caller's until the first attempt that gets to write an id, carries that id from then on, and never changes again |
| FindOrCreateRetry.CreatedRowMatches | lib/dbh.js:922-973 | the row any attempt creates has what the caller gave |
| FindOrCreateRetry.DuplicatesExactlyWhen | lib/dbh.js:1085-1169 | an attempt inserts although its table holds a row matching what the caller gave exactly when no id was given, an earlier attempt got to write one, no row of the table carries that id, and nothing fails any more |
| FindOrCreateRetry.RetriedFindOrCreate | lib/transactions.js:133-164 | the retry loop ends with the first attempt that is not taken up again, and that attempt makes a second row exactly under this condition |
| FindOrCreateRetry.SecondRow | lib/dbh.js:1085-1169 | two attempts, the first failing at its COMMIT, that leave two rows for one set of fields |
| IndexSync.SyncIndex | lib/sync-to-db.js:1660-2028 | one declared index gets the signature its gates and the catalog call for, or none where the server refuses it, without touching another index; the statements that fail are exactly the DROP of an index that only seemed to be there and what is refused; nothing is executed exactly when it was in place |
| IndexSync.DropUndeclared | lib/sync-to-db.js:2039-2076 | whatever the catalog held and the schema does not declare is dropped, PRIMARY excepted |
| IndexSync.RawIsCreatedExactlyWhen | lib/sync-to-db.js:1717-1760 | a raw-SQL index is created exactly when it is absent, in parentheses and not both full-text and unique, and left alone otherwise |
| IndexSync.NothingIsLeft | lib/sync-to-db.js:1691-1716 | an index without columns, or with the full-text mark alone, is left alone |
| IndexSync.SyncIndexes | lib/sync-to-db.js:1596-2077 | a catalog that cannot be read stops the pass; otherwise every declared index is as its gates call for, undeclared ones are gone, PRIMARY and whatever the gates leave alone are untouched, the statements that fail are those of the single indexes, and a pass is silent exactly when there was nothing to do |
| IndexSync.GoesWellExactlyWhen | lib/sync-to-db.js:1629-2028 | an index is synced without a failing statement and ends as declared exactly when it was in place or the server takes it, and its name is in the catalog or not one every object inherits |
| IndexSync.PassGoesWellExactlyWhen | lib/sync-to-db.js:1596-2077 | a pass executes no failing statement and leaves every declared index as declared exactly when each of them goes well so |
| IndexSync.OnePassSettles | lib/sync-to-db.js:1596-2077 | what a pass leaves behind is settled exactly when every index it built reads back with the signature it was built for; where nothing failed, nothing fails in the next pass |
| IndexSync.SyncTwice | lib/sync-to-db.js:1596-2077 | two passes over an unchanged schema both read the catalog exactly when it can be read and no index left by the first has an inherited name a grouping reader trips over; then the second executes nothing exactly when the reader is faithful, and nothing fails in either exactly when nothing fails in the first |
| IndexEntries.AllFaithfulExactlyWhen | lib/sync-to-db.js:1817-1971 | on any dialect a schema settles in one pass exactly when each index is left alone, in place, or reads back |
| IndexEntries.DecisionIs | lib/sync-to-db.js:1691-1940 | an index of usable columns is managed with exactly its columns, or left alone where the dialect lacks what it asks for; the mark `FULLTEXT` in front of the columns, in any case, makes it a full-text one and is no column |
| IndexEntries.InheritedRawIsNeverCreated | lib/sync-to-db.js:1660-1760 | an absent raw-SQL index called like an inherited property is taken for present and never created |
| IndexNames.FitsExactlyWhen | lib/sync-to-db.js:454-466 | a name fits the limit exactly when it did already or the limit leaves room for the hash |
| IndexNames.PrefixStaysExactlyWhen | lib/sync-to-db.js:454-508 | a physical name carries the table's prefix exactly when the cut is not inside the prefix or the hash spells what was cut off |
| IndexNames.ResolveTwiceExactlyWhen | lib/sync-to-db.js:494-508 | a physical name resolves to itself exactly when the cut is not inside the prefix, or the hash spells what was cut off, or the name and its prefixed physical name have one hash |
| IndexNames.SixtyCharacterTable | lib/sync-to-db.js:494-508 | a table name of 60 characters for which resolving twice is not resolving once |
| IndexNames.ShortTablesResolveOnce | lib/sync-to-db.js:494-508 | resolving is idempotent for tables whose name leaves room for the hash |
| IndexNames.SameNameExactlyWhen | lib/sync-to-db.js:494-508 | two declared names get one physical name exactly when neither is cut and they are equal or differ by the prefix alone, or both are cut and beginning and hash agree, or one is what the other is cut to, with the prefix or without |
| IndexNames.DistinctExactlyWhen | lib/sync-to-db.js:1643-1654 | the declared names of a table have distinct physical names exactly when no two of them meet so |
| IndexNames.PrefixedTwinsMeet | lib/sync-to-db.js:494-508 | `x` and the table's own prefixed `x` are one index, whatever the table and the limit |
| IndexNames.CutNameMeetsUncut | lib/sync-to-db.js:494-508 | a name that is cut meets its own physical name declared beside it |
| IndexColumns.NormalizeIsIdempotent | lib/sync-to-db.js:309-341 | normalising the spelling of a column twice is normalising it once, for every text |
| IndexColumns.AccessorSpelling | lib/sync-to-db.js:309-341 | a JSON accessor in either quotes, with or without the root, gets the spelling in double quotes from the root |
| IndexColumns.MixedQuotesStay | lib/sync-to-db.js:309-341 | an accessor whose quotes differ stays as it is |
| IndexColumns.NameSpelling | lib/sync-to-db.js:309-341 | a name loses its quotes or backticks |
| IndexColumns.DirectionSpelling | lib/sync-to-db.js:309-341 | and its direction comes out in capitals |
| IndexSpecs.InheritedIsNeverReported | lib/sync-to-db.js:1952-1966 | where an inherited text is taken for the length of a column, no report of the column has the spelling sync wants |
| IndexSpecs.CheckedExactlyWhen | lib/sync-to-db.js:1842-1882 | a column is usable exactly when its first word is a field beginning with a letter and what follows is a blank or parenthesis and a text on one line, and it is then taken as it is |
| IndexSpecs.FulltextLengthIsDropped | lib/sync-to-db.js:1842-1882 | a full-text index loses the length of a column, and only a complete one |
| IndexSpecs.LengthIsPutBehind | lib/sync-to-db.js:1948-1966 | the length known for a column stands behind its name and keeps a direction only |
| MySqlIndex.ColumnReadsBackExactlyWhen | lib/dialects/MySQLDialect.js:427-471 | the signature reported for a created column is the desired one exactly for the listed spellings |
| MySqlIndex.FulltextReadsBack | lib/sync-to-db.js:1848-1886 | a column of a full-text index reads back, with an explicit length or without |
| MySqlJsonIndex.AccessorReadsBack | lib/dialects/MySQLDialect.js:37-64 | a JSON accessor is printed as a functional column, and the expanded expression, with backticks and character-set introducers or without, plain or escaped quotes, folds back to the schema's canonical spelling |
| MySqlJsonIndex.OtherExpressionStays | lib/dialects/MySQLDialect.js:37-64 | an expression that is no JSON accessor is not touched |
| MySqlSync.SignatureReadsBackExactlyWhen | lib/dialects/MySQLDialect.js:229-272 | what the server reads in the printed statement, uniqueness, full-text mark and columns, is reported with the desired signature exactly when the index is not both unique and full-text, every column reads back and none has an inherited length |
| MySqlSync.ManagedExactlyWhen | lib/sync-to-db.js:1691-1940 | on MySQL an index is managed unless it is unique and also full-text or partial, and always without its predicate |
| MySqlSync.SyncMySqlTwice | lib/sync-to-db.js:1596-1971 | on MySQL both passes read the catalog and the second is silent exactly when no index of the catalog has an inherited name and every managed one was in place or has only columns that read back, under a name of its own |
| MySqlSync.InheritedNameFails | lib/dialects/MySQLDialect.js:229-272 | an absent index called like an inherited property: its DROP fails, and once it is created the catalog is unreadable |
| MySqlSync.InheritedColumnIsRefused | lib/dialects/MySQLDialect.js:427-471 | an index over a column called like an inherited property, not of a text type, is refused by the server |
| MySqlSync.AscendingIsRebuilt | lib/dialects/MySQLDialect.js:427-471 | an index over an ascending column is reported with another signature |
| QuotedIndex.QuotedReadsBackExactlyWhen | lib/dialects/SQLiteDialect.js:548-587 | where names stand in double quotes a plain column is reported with the spelling sync wants exactly when it has no length and no ascending order |
| QuotedIndex.NamedEntry | lib/dialects/PostgresDialect.js:737-758 | a name, of letters, digits and underscores and not beginning with a digit, loses its length and what stands behind it |
| QuotedIndex.ExpressionStays | lib/dialects/PostgresDialect.js:737-758 | an expression in parentheses is printed as it is |
| QuotedIndex.OtherTextIsQuoted | lib/dialects/PostgresDialect.js:737-758 | a text that begins with a digit, or opens a parenthesis and does not end in one, stands in quotes as a whole |
| IndexStatements.StatementIsRead | lib/dialects/SQLiteDialect.js:534-597 | a server that reads the printed CREATE INDEX statement finds the uniqueness, the full-text mark, the columns in order and the predicate it was printed from; an empty predicate is none |
| SqliteIndexText.FindClose | lib/dialects/SQLiteDialect.js:52-82 | the loop finds the parenthesis that closes the column list, quotes and escapes respected, or none |
| SqliteIndexText.SplitExpressions | lib/dialects/SQLiteDialect.js:86-132 | the loop splits at the commas outside parentheses and quotes |
| SqliteIndexText.ExtractIndexExpressionsFromSql | lib/dialects/SQLiteDialect.js:38-133 | the two loops together compute the extraction, and nothing at all where there is no ` ON `, no parenthesis or no closing one |
| SqliteIndexText.ExtractReadsWhatWasPrinted | lib/dialects/SQLiteDialect.js:38-133 | extracting from the printed CREATE INDEX text returns the printed expressions in order, with a WHERE clause or without |
| SqliteIndexText.OnIsTheFirst | lib/dialects/SQLiteDialect.js:43-46 | the extraction starts at the first ` ON ` of the statement, in any case |
| SqliteIndexText.WhereIsFound | lib/dialects/SQLiteDialect.js:441-449 | the reader finds the printed predicate, white space around it dropped, and no other WHERE in front of it |
| SqliteIndexText.ReadsRightExactlyWhen | lib/dialects/SQLiteDialect.js:409-455 | every expression column is given its own text exactly when none stands behind a named column |
| SqliteSync.SignatureReadsBackExactlyWhen | lib/dialects/SQLiteDialect.js:392-455 | printed, read by the server, stored, extracted and aligned, uniqueness, columns and predicate of a whole SQLite index are the desired ones exactly when all its columns are plain, without length, ascending order and inherited name, and its predicate is not empty and as read has the canonical form of the declared one |
| SqliteSync.AccessorIsPrinted | lib/dialects/SQLiteDialect.js:553-562 | a JSON accessor in any quotes is printed in parentheses, as a call of json_extract when its path lies below the root and as it is otherwise |
| SqliteSync.ManagedExactlyWhen | lib/sync-to-db.js:1691-1940 | on SQLite an index is managed exactly when it is no full-text one, an empty predicate counting as none |
| SqliteSync.SyncSqliteTwice | lib/sync-to-db.js:1596-1971 | on SQLite nothing fails, and the second pass is silent exactly when every index is a full-text one, was in place, or reads back so |
| SqliteSync.AccessorBehindColumn | lib/dialects/SQLiteDialect.js:409-455 | an accessor behind a column is given the text of that column, and the index never settles |
| PostgresJsonPath.PathIsSplit | lib/sql-transform/postgresJsonPath.js:33-41 | a path of names and subscripts, with its root or without, is split into exactly its steps |
| PostgresJsonPath.ConvertedText | lib/sql-transform/postgresJsonPath.js:54-91 | an accessor of one step keeps its operator and names the step; one of several becomes `#>` or `#>>`, as text is wanted or not, with the steps in braces |
| PostgresJsonPath.ConvertTwice | lib/sql-transform/postgresJsonPath.js:78-91 | converting an accessor twice is converting it once |
| PostgresJsonRoundTrip.CatalogReads | lib/dialects/PostgresDialect.js:116-147 | the catalog's text of an accessor, the field quoted or not, is read as field and dotted path |
| PostgresJsonRoundTrip.AccessorReadsBackExactlyWhen | lib/sql-transform/postgresJsonPath.js:54-91 | a converted, created and reported accessor has the schema's canonical spelling exactly when its path has no subscript |
| PostgresSync.FunctionalIsPrinted | lib/dialects/PostgresDialect.js:688-770 | from the entry of the printed column list, operator included, the catalog prints the accessor the reader describes |
| PostgresSync.SignatureReadsBackExactlyWhen | lib/dialects/PostgresDialect.js:471-540 | what the server reads in the printed statement is reported with the desired uniqueness, columns and predicate exactly when the index is a single accessor without subscripts or has only plain columns without length, ascending order and inherited name, and its predicate is not empty and as printed has the canonical form of the declared one |
| PostgresSync.ManagedExactlyWhen | lib/sync-to-db.js:1691-1940 | on PostgreSQL an index is managed unless it is unique and also full-text, an empty predicate counting as none |
| PostgresSync.SkeletonReadsBackExactlyWhen | lib/sql-transform/indexPredicate.js:134-329 | a predicate of AND, OR and NOT reads back exactly when SQL reads what the server prints as the declared tree, up to the case of names |
| PostgresSync.DeparsedReadsBack | lib/sql-transform/indexPredicate.js:134-329 | printed with every connective and NOT in parentheses of its own, such a predicate reads back, however it was declared |
| PostgresSync.SyncPostgresTwice | lib/sync-to-db.js:1596-1971 | on PostgreSQL, where no two declared names meet, nothing fails, and the second pass is silent exactly when every index was in place under its physical name or reads back, predicate included |
| PostgresSync.SubscriptIsRebuilt | lib/dialects/PostgresDialect.js:116-147 | an index over `$.items[0]` is reported with another signature |
| PostgresSync.AccessorBesideColumn | lib/dialects/PostgresDialect.js:517-536 | an index over a column and an accessor is reported as one column |
| PostgresSync.RewrittenPredicateIsRebuilt | lib/sync-to-db.js:359-373 | an index whose predicate is printed in a form of another canonical text is reported with another signature |
| IndexPredicate.FlattenBooleanChain | lib/sql-transform/indexPredicate.js:134-147 | the recursion appends exactly the operands and operators of the unparenthesised chain to the two shared arrays |
| IndexPredicate.ReassociateBooleans | lib/sql-transform/indexPredicate.js:164-234 | the two loops terminate and build the tree that regrouping with AND first defines |
| IndexPredicate.OrderIsKept | lib/sql-transform/indexPredicate.js:164-234 | the repair moves no operand and no operator |
| IndexPredicateMeaning.MeaningIsRepaired | lib/sql-transform/indexPredicate.js:149-234 | in three-valued logic the repaired tree evaluates as the operand sequence read with AND binding tighter, parenthesised groups as units |
| IndexPredicateMeaning.RepairIsSqlReading | lib/sql-transform/indexPredicate.js:149-234 | repairing what the parser made of a text gives exactly the tree of SQL's grammar |
| IndexPredicateText.RenderIsExact | lib/sql-transform/indexPredicate.js:245-329 | no rendering is the beginning of another: the rendered text determines the tree and what follows it |
| IndexPredicateText.OrAndText | lib/sql-transform/indexPredicate.js:245-329 | `a OR b AND c` comes out as `(a or (b and c))` |
| IndexPredicateText.AndOrNotText | lib/sql-transform/indexPredicate.js:245-329 | `a AND b OR NOT c` comes out as `((a and b) or (not c))` |
| IndexPredicateText.ComparisonIsExact | lib/sql-transform/indexPredicate.js:134-329 | two texts have one canonical string exactly when SQL reads them as one tree, up to the case of names and redundant parentheses |
| IndexPredicateText.EqualTextsMeanTheSame | lib/sql-transform/indexPredicate.js:134-329 | equal canonical strings are equally true under every assignment |
| LinkCollation.Migrate | lib/migrations/link-collation.js:312-405 | what one column does to the database, the persisted list, the report and the loop, for every failure, kill and ALTER that lands unseen; progress is recorded only for a canonical column |
| LinkCollation.ListedExactlyWhen | lib/migrations/link-collation.js:282-405 | a column is altered, recorded or reported by a run exactly when no column before it ended the loop, it was not completed, fewer than stopAfter columns were applied so far, and its own fate says so |
| LinkCollation.ComesAndGoes | lib/migrations/link-collation.js:312-405 | a column the run comes to whose first verify, ALTER or second verify throws, or whose second verify finds another collation, is reported and not recorded, and without continueOnError nothing behind it is altered or recorded and the run stops early; with it the run goes on behind it. An applied column is recorded and not reported |
| LinkCollation.RunLinkCollationMigration | lib/migrations/link-collation.js:260-414 | for any failures, kills and stops the columns altered, recorded and reported, and the ending, are those of its course; every column the run comes to goes through the steps its own fate says, failures reported and halting the run unless it continues on errors; a dry run touches nothing and reports what is left; at most stopAfter columns are applied; a smooth run alters exactly its plan in manifest order |
| LinkCollation.RunHistory | lib/migrations/link-collation.js:260-414 | over any sequence of runs, stopped or killed anywhere, recorded columns are canonical and no column is altered twice |
| LinkCollation.FinishesInTime | lib/migrations/link-collation.js:326-331 | with stopAfter k >= 1 and no failures n columns are completed within ceil(n / k) runs |
| LinkCollation.RunRepeatedly | lib/migrations/link-collation.js:260-414 | repeating smooth runs reaches that state |
| Decycle.Decycler.DerezValue | lib/decyclePolyfill.js:35-118 | the recursion over the shared map terminates on every finite graph, cyclic or not, and yields the specified copy and map; arrays are walked by index, and an own `__proto__` is walked but makes no slot |
| Decycle.DecycleCopiesOnce | lib/decyclePolyfill.js:35-118 | each object met is recorded once, at a path that leads to it in the graph and, unless it goes through a `__proto__`, to its one copy in the tree |
| Retrocycle.Store.Rez | lib/decyclePolyfill.js:122-178 | the walk overwrites exactly the slots that hold references, in place, with the objects at their paths; it ends early only at a path through a `__proto__` |
| Retrocycle.EvalPlain | lib/decyclePolyfill.js:144-174 | a path keeps leading to its object while slots are being overwritten |
| Retrocycle.EvalHidden | lib/decyclePolyfill.js:144-174 | a path through a `__proto__` leads to no object of the tree |
| Retrocycle.DecycledIsLinkable | lib/decyclePolyfill.js:35-178 | decycle only makes trees that retrocycle can link |
| Retrocycle.RoundTrip | lib/decyclePolyfill.js:35-178 | retrocycle of decycle is isomorphic to the original rooted graph, sharing and cycles included, exactly when no reachable array has a named slot and no reachable plain object an own `__proto__` |
| Retrocycle.ProtoIsLost | lib/decyclePolyfill.js:110-113 | an object below an own `__proto__` is not in the copy |
| Retrocycle.NamedSlotIsLost | lib/decyclePolyfill.js:103-106 | the named slot of an array is not in the copy |
| PostgresTokens.TokenizeSql | lib/sql-transform/PostgresSqlTransformer.js:102-190 | the loop yields the segments of the suffix reading |
| PostgresTokens.SegmentsCoverText | lib/sql-transform/PostgresSqlTransformer.js:102-190 | the segments make up the text; only a backtick left open at the end is supplied |
| PostgresTokens.CodeIsPlain | lib/sql-transform/PostgresSqlTransformer.js:102-190 | no quote and no comment starts inside a code segment |
| PostgresTokens.LineCommentEnds | lib/sql-transform/PostgresSqlTransformer.js:109-119 | a line comment ends behind its line feed, or with the text, and reading goes on there |
| PostgresTokens.BlockCommentEnds | lib/sql-transform/PostgresSqlTransformer.js:121-131 | a block comment ends behind the first `*/`, or with the text |
| PostgresTokens.QuotedEnds | lib/sql-transform/PostgresSqlTransformer.js:146-168 | a quoted run ends behind the first delimiter that is neither doubled nor behind a backslash |
| PostgresTokens.NameEnds | lib/sql-transform/PostgresSqlTransformer.js:133-144 | a name in backticks ends at the next backtick |
| PostgresTokens.CodeEnds | lib/sql-transform/PostgresSqlTransformer.js:170-187 | code ends where a comment, a quote or a backtick begins |
| PostgresParams.ReplaceAllIsSubstitute | lib/sql-transform/PostgresSqlTransformer.js:251-259 | replacing name after name is one simultaneous substitution of every placeholder |
| PostgresParams.KeyOrderIrrelevant | lib/sql-transform/PostgresSqlTransformer.js:202 | the order of the names does not matter |
| PostgresParams.UsesAreExact | lib/sql-transform/PostgresSqlTransformer.js:213-229 | a placeholder is exactly a colon followed by a whole word that is a name |
| PostgresParams.SortedFoundIsUses | lib/sql-transform/PostgresSqlTransformer.js:210-232 | the matches found name by name, sorted by position, are the placeholders from left to right |
| PostgresBinding.FirstUsesIsOrder | lib/sql-transform/PostgresSqlTransformer.js:231-238 | paramOrder lists exactly the names used that no object inherits, without duplicates, by first use |
| PostgresBinding.TransformPlaceholders | lib/sql-transform/PostgresSqlTransformer.js:201-283 | the two passes yield that order and the simultaneous substitution in code, strings and comments untouched, backticks as double quotes |
| PostgresStatement.BehindComment | lib/sql-transform/PostgresSqlTransformer.js:201-283 | on the line behind a line comment two placeholders are found, ordered by first use and numbered, one name used twice getting one number |
| PostgresStatement.TransformBehindComment | lib/sql-transform/PostgresSqlTransformer.js:201-283 | the text that comes out: the comment untouched, `$1` and `$2` or twice `$1` in the code behind it |
| PostgresBinding.PositionalReadsNamed | lib/sql-transform/PostgresSqlTransformer.js:251-259 | reading the rewritten text by position is reading the original with what the code lets each name mean |
| PostgresBinding.ValuesReachTheirNames | lib/dialects/PostgresDialect.js:271-284 | with the values prepareParams lists, the statement says what the caller meant, casts being casts, exactly when it uses no inherited name and no name stands behind a double colon |
| PostgresBinding.CastIsTaken | lib/sql-transform/PostgresSqlTransformer.js:251-259 | a cast to a type called like a parameter becomes a colon and a placeholder |
| PostgresBinding.InheritedIsNotBound | lib/sql-transform/PostgresSqlTransformer.js:201-238 | a parameter called like an inherited property gets no place in the order |
| PromisePool.ClaimedOnce | lib/promiseMap.js:160-198 | in every interleaving each index is called at most once, in order, with at most min(concurrency, length) callbacks in flight |
| PromisePool.RunsAreBounded | lib/promiseMap.js:160-198 | every run of the pool is finite |
| PromisePool.ResultIsComplete | lib/promiseMap.js:155-202 | with a worker and throwErrors off every item is attempted; the result holds each value in its place, or the error thrown is one a callback raised |
| PromisePool.CompletedIsCounted | lib/promiseMap.js:160-198 | at any time each claimed index is completed, failed or being waited for |
| PromisePool.YieldsExactlyWhen | lib/promiseMap.js:182-185 | a worker yields exactly when the number of completed items is a multiple of yieldEvery, unless its error stops it |
| PromisePool.PoolSettles | lib/promiseMap.js:155-202 | every run can be carried on until no worker can go on |

## Left out

- Drivers, pools, file access, logging, the CLI, type generation, the model layer's caches and the finder.
- node-sql-parser, its AST rewrites and the SQLite AST path; the parser is modelled only as chaining AND and OR from left
  to right, as lib/sql-transform/indexPredicate.js:152-156 describes it.
- Casts, ANY(ARRAY) forms, operator synonyms and the text fallback of predicate normalisation.
- TransformPlaceholders: the rewriting of LIMIT, CURDATE, IFNULL and JSON accessors in transformSqlWithScanner is left
  out; only its placeholder, backtick and token handling is modelled.
- Text is a sequence of Unicode scalar values rather than UTF-16 code units; case-insensitive matching is ASCII.
- Clock, random nonces and back-off are left out of retries; acquiring a connection may fail but does not change it.
- Callbacks that await an outside query on their own SQLite handle, which never resolve.
- The column diff, textSearchConfig and, in index sync, the WHERE clause of raw-SQL indexes, whose signatures are never
  compared; statements the server refuses for another reason than a missing, existing or ill-formed index; an index called
  `__proto__`; declared columns that the table lacks but every object inherits.
- SHA-1 is any function with an eight-character result.
- The file form of the migration's state store; a save is atomic and never fails.
- RunNestedTransaction: nested calls run one after the other on a handle, and a ROLLBACK TO or RELEASE after a failure
  succeeds.
- RunRootTransaction: a COMMIT that reports an error has not committed.
- RunTransaction: when no access mode was asked for and an earlier cleanup failed, the mode of the committing attempt is
  left open, because the connection may have been left read-only.
- OneRowOneCreator: the fields include the primary key; rows other connections write meanwhile and patches after the
  search are not part of this model.
- RetriedFindOrCreate: ids that are generated or given by the database are not empty; values are strings or null; patches
  are not part of this model.
- ColumnReadsBackExactlyWhen: a column is a name, an optional length and an optional direction behind one blank; the server
  reports the length and direction it was given.
- FulltextReadsBack: full-text columns have no direction.
- AccessorReadsBack: the server's text of a functional index is one of the forms the reader describes, in any `Style`, with
  any text behind it.
- AccessorReadsBackExactlyWhen: path steps are plain names and subscripts; the catalog's text is the form the reader
  describes.
- SyncSqliteTwice: accessor paths hold no blank, quote or backslash, and index and table name no parenthesis; the stored
  statement is the one that was sent; how a predicate is brought to its canonical form (`canonical`) is a parameter.
- SyncPostgresTwice: full-text indexes are left out, their report being a parameter (`fulltext`), and so is
  textSearchConfig; declared names that meet are excluded, because their indexes replace each other; index and table name
  hold no opening parenthesis; the column list is the text between the parentheses of pg_get_indexdef; how the server prints
  a predicate (`rendered`) and its canonical form (`canonical`) are parameters.
- SyncMySqlTwice: index and table name hold no opening parenthesis, and the inherited texts close the parentheses and
  quotes they open; how the server spells the expression of a functional index (`style`, `tail`) is a parameter.
- SkeletonReadsBackExactlyWhen: of predicates with comparisons, BETWEEN, IN and the like only RewrittenPredicateIsRebuilt
  speaks; which of them PostgreSQL prints in which form is not part of this model.
- SixtyCharacterTable: the two hashes differ, which SHA-1 itself would have to be run for.
- ExtractReadsWhatWasPrinted: the expressions hold no backslash, and index and table name no parenthesis.
- ComparisonIsExact: predicates are AND, OR, NOT and parentheses over identifier-shaped names.
- DecycleCopiesOnce: paths are key sequences; their text and its `eval` are one-to-one with them. Wrapper objects, Dates,
  the replacer, sparse arrays and objects with a `$ref` of their own are not part of this model; the tree is what
  JSON.stringify writes, which leaves out the prototype that `__proto__` was given.
- RoundTrip: a path through `__proto__` evaluates to a value outside the tree or throws, as the parameter `outside` says.
- ValuesReachTheirNames: code segments hold no `$n` of their own.
- ResultIsComplete: with throwErrors on, the early rejection of the pool's promise is not modelled; the workers that go on
  are.
- ClaimedOnce: a callback that throws before its first await counts as one whose promise is rejected and whose worker is
  resumed at once. With `yieldEvery` 0 its worker may then claim several indexes before the next worker starts, so that
  the started workers are not each in a callback of their own; the results are the same.
