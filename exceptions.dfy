/**
 * The exception hierarchy of the checker: the datatype `MigrationError` is
 * the base class, it has one constructor per concrete exception class, and
 * the predicate `IsInvalidMigrationChain` stands for the intermediate class
 * `InvalidMigrationChainError`.
 */
module Exceptions {
  import opened Wrappers

  /** A revision identifier: an opaque string compared by equality and ordering. */
  type Revision = string

  /** Why reading one migration file raised `MigrationFileError`. */
  datatype FileDefect =
    | RevisionNotFound   // the file declares no `revision`
    | EmptyDownRevision  // the file declares `down_revision = ''`

  /** What a `MigrationFileError` reports. */
  datatype FileProblem =
    | DirectoryNotFound                              // raised by the builder: no migrations directory
    | BadFile(fileName: string, defect: FileDefect)  // raised while reading one file

  /**
   * `MigrationError` and its subclasses. Each constructor carries the
   * identifiers that the exception's message embeds.
   */
  datatype MigrationError =
    | MigrationFileError(problem: FileProblem)
    | DuplicateRevisionError(revision: Revision)
    | MultipleInitialMigrationsError(initial: seq<Revision>)
    | MissingDownRevisionError(revision: Revision, missing: Revision)
      // The builder's early check names only the repeated value (which may be
      // `None`) and no revisions; the validator's names the shared value and
      // the revisions that share it.
    | DuplicateDownRevisionError(shared: Option<Revision>, revisions: seq<Revision>)
    | CircularDependencyError(cycle: seq<Revision>)
  {
    /** Subclasses of `InvalidMigrationChainError`. */
    predicate IsInvalidMigrationChain()
    {
      MultipleInitialMigrationsError? || MissingDownRevisionError? ||
      DuplicateDownRevisionError? || CircularDependencyError?
    }
  }
}
