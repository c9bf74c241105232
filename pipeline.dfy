/**
 * The builder followed by the validator, as `run_checks` chains them: what
 * the builder's early checks guarantee about the dictionary it hands on.
 */
module Pipeline {
  import opened Wrappers
  import opened Exceptions
  import opened Chains
  import opened ChainBuilder
  import opened CycleCheck
  import opened ChainValidator
  import opened ValidatorProperties

  /**
   * A dictionary the builder returns has at most one initial migration and
   * no shared down-revision, so validating it can raise neither
   * `MultipleInitialMigrationsError` nor `DuplicateDownRevisionError`.
   */
  lemma BuiltChainPassesRootAndDuplicateChecks(directoryExists: bool, files: seq<MigrationFile>)
    requires Build(directoryExists, files).Success?
    ensures var c := Build(directoryExists, files).value;
      c.WellFormed() &&
      var out := ValidationOutcome(c);
      out.Fail? ==> !out.error.MultipleInitialMigrationsError? && !out.error.DuplicateDownRevisionError?
  {
    BuiltChainIsInjective(directoryExists, files);
    var c := Build(directoryExists, files).value;
    assert AtMostOneInitial(c.links);
    assert DownRevisionsUnique(c.links);
    MultipleInitialReported(c);
    MissingDownRevisionReported(c);
    if DownRevisionsResolve(c.links) {
      CircularDependencyReported(c);
      if Acyclic(c.links) {
        DuplicateDownRevisionReported(c);
      }
    }
  }
}
