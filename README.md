# alembic-check: the migration-chain checker, in Dafny

alembic-check reads the revision files of an Alembic migrations directory and
rejects a history that is not a single straight chain. This project models its
two core functions and proves what they guarantee:

- `build_migration_chain` folds the migration files into a dictionary from
  revision to down-revision. `None` marks an initial migration. The fold
  stops at the first malformed file, at the first revision that is already a
  key, and at the first down-revision that is already a value, `None`
  included.
- `validate_migration_chain` runs four checks on such a dictionary, in a
  fixed order, and raises the first failure:
  1. more than one initial migration;
  2. a down-revision that is not a revision;
  3. a cycle, found by the nested walk `check_cycle`;
  4. a down-revision shared by several revisions.

The dictionary is a `Chain`, which keeps its keys in insertion order
(`order`) beside the map itself (`links`). The cycle scan goes through the
keys in insertion order, and that order decides which rotation of a cycle is
reported. The other scans go over `sorted(migrations.items())`. This is
modelled by `StringOrder.Sort`, an insertion sort under Python's string
ordering, which compares code points lexicographically and puts a proper
prefix first. The base class `MigrationError` becomes the datatype
`Exceptions.MigrationError`. Each concrete exception class becomes one of its
constructors, which carries the identifiers and lists that its message embeds.
The intermediate class `InvalidMigrationChainError` becomes the predicate
`MigrationError.IsInvalidMigrationChain`. A `MigrationFileError` says whether
the directory was missing (`DirectoryNotFound`, raised only by the builder) or
which file could not be read and why (`BadFile`).

Each loop of the source is a method with a `while` or `for` loop, proved equal
to a specification function:

| loop | method | function |
|---|---|---|
| the insertion loop | `ChainBuilder.BuildMigrationChain` | `ChainBuilder.Build` |
| the `check_cycle` walk | `CycleCheck.CheckCycle` | `CycleCheck.CycleFrom` |
| the missing-down-revision scan | `ChainValidator.FindMissing` | `ChainValidator.FirstMissing` |
| the cycle scan | `ChainValidator.FindCycle` | `ChainValidator.FirstCycle` |
| the `setdefault(...).append` grouping | `ChainValidator.GroupDownRevisions` | `ChainValidator.GroupByDown` |
| the scan over the groups | `ChainValidator.FindShared` | `ChainValidator.FirstShared` |

Lemmas about these functions state what the checker promises. The central
one, `ValidatorProperties.ValidationPassesIff`, says that validation passes
exactly when four things hold: there is at most one initial migration, every
truthy down-revision is a revision, there is no cycle, and no two revisions
share a down-revision. For each error, a lemma says when it is raised and
exactly what it carries.

The file `scenarios.dfy` pins the outcomes of the repository's table of
validator tests on the same revision identifiers.

## Model

| member | source | states |
|---|---|---|
| ChainBuilder.BuildMigrationChain | alembic_check/check_migrations.py:77-98 | The insertion loop, with the dictionary as a key order plus a map, returns exactly the result of the fold `Build` over the files in the given order. Each step of the fold is `AddFile` (lines 84-94): a malformed file raises its error, then the key test, then the value test, then the insertion. A missing directory fails with `DirectoryNotFound`. |
| ChainBuilder.FailureIsFinal | alembic_check/check_migrations.py:82-96 | Once a prefix of the files fails, the whole build fails with that same error, so the first failing file decides the error. |
| ChainBuilder.BuildSucceedsIff | alembic_check/check_migrations.py:82-98 | The build succeeds if and only if every file parsed, the revisions are pairwise distinct and the down-revisions (`None` included) are pairwise distinct. On success the chain lists the files' revisions in file order, each mapped to its own down-revision. |
| ChainBuilder.DuplicateRevisionFirst | alembic_check/check_migrations.py:87-88 | A file whose revision is already a key fails with `DuplicateRevisionError` naming that revision, whatever its down-revision. The key test comes first. |
| ChainBuilder.DuplicateDownRevisionSecond | alembic_check/check_migrations.py:89-92 | A new revision whose down-revision, `None` included, is already a value fails with `DuplicateDownRevisionError` naming that down-revision. |
| ChainBuilder.BuiltChainIsInjective | alembic_check/check_migrations.py:89-94 | A built dictionary is well formed and maps distinct revisions to distinct down-revisions, so at most one of them is `None`. |
| CycleCheck.CheckCycle | alembic_check/check_migrations.py:137-151 | The `check_cycle` loop terminates and returns exactly `CycleFrom(links, start)`, the recursive walk `Walk` from an empty path. `Walk` follows `migrations.get` (`Chains.Get`), so a down-revision that is not a key ends the walk like `None`. Its invariants keep the path pairwise distinct and its length at most the number of keys plus one. |
| CycleCheck.CycleFromSound | alembic_check/check_migrations.py:142-146 | A cycle that `check_cycle` returns starts and ends with the same revision and has no other repeat. Each element's down-revision is the next element. Its length is at most the number of revisions plus one. |
| CycleCheck.CycleFromComplete | alembic_check/check_migrations.py:137-151 | Started on any revision of a cycle in the dictionary, `check_cycle` returns a cycle, so no cycle goes unnoticed. |
| ChainValidator.SortedRevisions | alembic_check/check_migrations.py:119 | `sorted(migrations.items())` yields every revision exactly once, in strictly ascending order. |
| ChainValidator.WithDown | alembic_check/check_migrations.py:122 | The comprehension keeps exactly the revisions whose down-revision is the given one. |
| ChainValidator.FirstMissing | alembic_check/check_migrations.py:130-134 | The scan returns a revision whose down-revision is truthy and not a key (`Dangling`, using `Chains.Truthy`). It returns nothing if and only if no revision is like that. |
| ChainValidator.FindMissing | alembic_check/check_migrations.py:130-134 | The early-exit loop returns exactly `FirstMissing` over the ascending revisions. |
| ChainValidator.FirstCycle | alembic_check/check_migrations.py:154-159 | The scan returns a genuine cycle within the length bound. It returns nothing if and only if `check_cycle` finds no cycle from any revision. |
| ChainValidator.FindCycle | alembic_check/check_migrations.py:154-159 | The loop over the revisions in insertion order returns exactly `FirstCycle`. |
| ChainValidator.GroupByDown | alembic_check/check_migrations.py:162-165 | A down-revision is in the group order if and only if it has a group, and every group is non-empty. |
| ValidatorProperties.GroupMembers | alembic_check/check_migrations.py:162-165 | Each group lists exactly the revisions with that down-revision, in scan order. No revision has a down-revision that has no group. |
| ValidatorProperties.GroupOrder | alembic_check/check_migrations.py:162-167 | Over ascending revisions, each down-revision is listed once. The groups are listed in the order of their first members, which ascends. |
| ChainValidator.GroupDownRevisions | alembic_check/check_migrations.py:162-165 | The `setdefault(...).append` loop builds exactly `GroupByDown` over the ascending revisions. |
| ChainValidator.FirstShared | alembic_check/check_migrations.py:167-172 | The scan returns a down-revision whose group has more than one revision. It returns nothing if and only if every group has at most one. |
| ChainValidator.FirstSharedIsFirst | alembic_check/check_migrations.py:167-172 | Every group scanned before the reported one has at most one revision. |
| ChainValidator.FindShared | alembic_check/check_migrations.py:167-172 | The loop over the groups in insertion order returns exactly `FirstShared`. |
| ChainValidator.ValidateMigrationChain | alembic_check/check_migrations.py:101-174 | The four checks, run in order, return exactly `ValidationOutcome`. An empty dictionary passes. `ValidationOutcome` is staged as `InitialCheck`, `MissingCheck`, `CyclesCheck` and `DuplicatesCheck`, one function per check. |
| ChainValidator.MissingCheck | alembic_check/check_migrations.py:129-174 | From check 2 on, the validator can raise only `MissingDownRevisionError`, `CircularDependencyError` or `DuplicateDownRevisionError`. |
| ChainValidator.CyclesCheck | alembic_check/check_migrations.py:136-174 | From check 3 on, it can raise only `CircularDependencyError` or `DuplicateDownRevisionError`. |
| ChainValidator.DuplicatesCheck | alembic_check/check_migrations.py:161-174 | Check 4 can raise only a `DuplicateDownRevisionError` that names a down-revision. `None` is never grouped. |
| ValidatorProperties.MultipleInitialReported | alembic_check/check_migrations.py:119-127 | Validation raises `MultipleInitialMigrationsError` if and only if more than one revision has `None`. The list holds exactly those revisions, strictly ascending. With at most one initial migration, validation goes on to the missing-down-revision check. |
| ValidatorProperties.MissingDownRevisionReported | alembic_check/check_migrations.py:129-134 | With at most one initial migration, validation raises `MissingDownRevisionError` if and only if some truthy down-revision is not a revision. It names such a revision and the down-revision it points to. No revision sorting before it dangles. |
| ValidatorProperties.CircularDependencyReported | alembic_check/check_migrations.py:136-159 | Once checks 1 and 2 pass, validation raises `CircularDependencyError` if and only if the dictionary has a cycle. The reported cycle is genuine and within the length bound. It is the one `check_cycle` finds from the first revision, in insertion order, from which it finds any. |
| ValidatorProperties.DuplicateDownRevisionReported | alembic_check/check_migrations.py:161-174 | Once checks 1 to 3 pass, validation raises `DuplicateDownRevisionError` if and only if two revisions share a down-revision. It names that down-revision with exactly the revisions sharing it, strictly ascending. No revision sorting before the first of them shares its own down-revision. Otherwise validation passes. |
| ValidatorProperties.ValidationPassesIff | alembic_check/check_migrations.py:101-174 | Validation passes if and only if four things hold: at most one initial migration, every truthy down-revision resolves, no cycle, and no shared down-revision. |
| ValidatorProperties.ValidationErrorsAreChainErrors | alembic_check/exceptions.py:16-33 | Every error the validator raises is one of the four `InvalidMigrationChainError` subclasses. |
| ValidatorProperties.ValidChainHasOneInitial | alembic_check/check_migrations.py:116-174 | A non-empty dictionary that passes validation, and has no empty down-revision, has exactly one initial migration. |
| Pipeline.BuiltChainPassesRootAndDuplicateChecks | alembic_check/check_migrations.py:185-187 | Validating a dictionary the builder returned never raises `MultipleInitialMigrationsError` or `DuplicateDownRevisionError`. |
| StringOrder.Sort | alembic_check/check_migrations.py:119 | Sorting returns a permutation of its input. |
| StringOrder.SortAscending | alembic_check/check_migrations.py:119 | Sorting distinct strings yields a strictly ascending sequence under Python's string ordering. |
| StringOrder.LessTotal | alembic_check/check_migrations.py:119 | Python's string ordering is total on distinct strings. `LessIrreflexive`, `LessAsymmetric` and `LessTransitive` give the rest of a strict order. |
| Scenarios.ValidScenario | tests/test_check_migrations.py:199-206 | `{1a2b…: None, 2b3c…: 1a2b…, 3c4d…: 2b3c…}` passes. |
| Scenarios.DuplicateDownRevisionScenario | tests/test_check_migrations.py:207-217 | Two revisions on `2b3c…` raise `DuplicateDownRevisionError` naming `2b3c…` with `3c4d…, 4d5e…`. |
| Scenarios.MissingDownRevisionScenario | tests/test_check_migrations.py:218-227 | `3c4d…` pointing to `nonexistent` raises `MissingDownRevisionError('3c4d…', 'nonexistent')`. |
| Scenarios.MultipleInitialScenario | tests/test_check_migrations.py:228-237 | Two `None` down-revisions raise `MultipleInitialMigrationsError` listing `1a2b…, 3c4d…`. |
| Scenarios.EmptyScenario | tests/test_check_migrations.py:238-241 | The empty dictionary passes. |
| Scenarios.CircularScenario | tests/test_check_migrations.py:242-251 | `{1a2b…: None, 2b3c…: 3c4d…, 3c4d…: 2b3c…}` raises `CircularDependencyError` with `2b3c… -> 3c4d… -> 2b3c…`. |

Three details of the code that matter for the model:

- Line 131 tests the down-revision for truthiness, so a down-revision `""` is
  never checked for resolving. `Chains.Truthy` models this.
  `read_migration_file` rejects `""` (lines 57-60), so the builder never
  produces one.
- Line 123 rejects more than one initial migration and nothing else.
  `ValidChainHasOneInitial` shows that, without empty down-revisions, a
  non-empty chain that passes has exactly one.
- The cycle scan at line 154 follows the dictionary's insertion order, which
  decides the reported rotation. `CircularDependencyReported` states this.

## Left out

- `read_migration_file` (alembic_check/check_migrations.py:29-62): its regular
  expressions and file reads are not modelled. Each file enters the builder
  as its outcome: `Parsed(revision, downRevision)`, or
  `Malformed(fileName, defect)` for the `MigrationFileError` it raises.
- The directory test and `glob` (lines 77-78, 82): filesystem I/O. Whether
  the directory exists is a boolean parameter. The enumeration order is the
  order of the given sequence of files.
- `run_checks`, `main` and `has_migration_changes` (lines 177-228): argument
  handling, printing to standard error, exit codes and `pathlib` path
  parsing. Only the composition of build and validate is modelled, by
  `Pipeline.BuiltChainPassesRootAndDuplicateChecks`.
- Message text: errors carry the structured fields that the messages embed
  (revision, down-revision, lists), not the formatted strings. The builder's
  `DuplicateDownRevisionError` names no revisions, so it carries an empty
  list.
- In-place mutation of the Python dictionary, `path` list and
  `down_revisions` dictionary: the methods reassign `seq` and `map` values.
  Nothing else holds a reference to these objects, so aliasing cannot arise.
