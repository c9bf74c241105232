/**
 * `build_migration_chain`: folds the (revision, down_revision) pair read from
 * each migration file into the migrations dictionary, rejecting a revision
 * that is already a key and a down-revision (including `None`) that is
 * already a value.
 */
module ChainBuilder {
  import opened Wrappers
  import opened Exceptions
  import opened Seqs
  import opened Chains

  /**
   * What reading one migration file produced: its two identifiers, or the
   * `MigrationFileError` the reader raised. The files are given in the order
   * in which the directory listing yields them.
   */
  datatype MigrationFile =
    | Parsed(revision: Revision, downRevision: Option<Revision>)
    | Malformed(fileName: string, defect: FileDefect)

  /** One iteration of the insertion loop. */
  function AddFile(c: Chain, f: MigrationFile): Result<Chain, MigrationError>
  {
    match f
    case Malformed(name, d) => Failure(MigrationFileError(BadFile(name, d)))
    case Parsed(rev, down) =>
      if rev in c.links then Failure(DuplicateRevisionError(rev))
      else if down in c.links.Values then Failure(DuplicateDownRevisionError(down, []))
      else Success(Chain(c.order + [rev], c.links[rev := down]))
  }

  /** The dictionary after the loop has consumed `files`, or the first error raised. */
  function BuildFiles(files: seq<MigrationFile>): Result<Chain, MigrationError>
  {
    if files == [] then Success(EmptyChain)
    else
      match BuildFiles(files[..|files| - 1])
      case Failure(e) => Failure(e)
      case Success(c) => AddFile(c, files[|files| - 1])
  }

  /** The whole of `build_migration_chain`, the directory test included. */
  function Build(directoryExists: bool, files: seq<MigrationFile>): Result<Chain, MigrationError>
  {
    if !directoryExists then Failure(MigrationFileError(DirectoryNotFound))
    else BuildFiles(files)
  }

  method BuildMigrationChain(directoryExists: bool, files: seq<MigrationFile>)
    returns (r: Result<Chain, MigrationError>)
    ensures r == Build(directoryExists, files)
  {
    if !directoryExists {
      return Failure(MigrationFileError(DirectoryNotFound));
    }
    var order: seq<Revision> := [];
    var migrations: Links := map[];
    for i := 0 to |files|
      invariant BuildFiles(files[..i]) == Success(Chain(order, migrations))
    {
      assert files[..i + 1][..i] == files[..i];
      match files[i]
      case Malformed(name, d) =>
        r := Failure(MigrationFileError(BadFile(name, d)));
        FailureIsFinal(files, i + 1);
        return;
      case Parsed(rev, down) =>
        if rev in migrations {
          r := Failure(DuplicateRevisionError(rev));
          FailureIsFinal(files, i + 1);
          return;
        }
        if down in migrations.Values {
          r := Failure(DuplicateDownRevisionError(down, []));
          FailureIsFinal(files, i + 1);
          return;
        }
        migrations := migrations[rev := down];
        order := order + [rev];
    }
    assert files[..|files|] == files;
    return Success(Chain(order, migrations));
  }

  /** The first error raised ends the loop: later files cannot change it. */
  lemma {:induction false} FailureIsFinal(files: seq<MigrationFile>, n: nat)
    requires n <= |files|
    requires BuildFiles(files[..n]).Failure?
    ensures BuildFiles(files) == BuildFiles(files[..n])
    decreases |files| - n
  {
    if n < |files| {
      assert files[..n + 1][..n] == files[..n];
      FailureIsFinal(files, n + 1);
    } else {
      assert files[..n] == files;
    }
  }

  /** Every file was read successfully. */
  predicate AllParsed(files: seq<MigrationFile>)
  {
    forall i :: 0 <= i < |files| ==> files[i].Parsed?
  }

  /** The files' revisions are pairwise distinct, and so are their down-revisions, `None` included. */
  predicate Acceptable(files: seq<MigrationFile>)
  {
    && AllParsed(files)
    && (forall i, j :: 0 <= i < j < |files| ==> files[i].revision != files[j].revision)
    && (forall i, j :: 0 <= i < j < |files| ==> files[i].downRevision != files[j].downRevision)
  }

  /** `c` holds exactly the files' pairs, keys in file order. */
  ghost predicate ChainOf(files: seq<MigrationFile>, c: Chain)
    requires AllParsed(files)
  {
    && c.WellFormed()
    && |c.order| == |files|
    && forall i :: 0 <= i < |files| ==>
         c.order[i] == files[i].revision && c.links[c.order[i]] == files[i].downRevision
  }

  /** `Acceptable` grows one file at a time. */
  lemma AcceptableSnoc(init: seq<MigrationFile>, f: MigrationFile)
    ensures Acceptable(init + [f]) <==>
      && Acceptable(init) && f.Parsed?
      && (forall i :: 0 <= i < |init| ==> init[i].revision != f.revision)
      && (forall i :: 0 <= i < |init| ==> init[i].downRevision != f.downRevision)
  {
    var files := init + [f];
    if Acceptable(files) {
      assert forall i :: 0 <= i < |init| ==> files[i] == init[i];
      assert files[|init|] == f;
    }
  }

  /** One insertion on a chain that holds exactly `init`'s pairs. */
  lemma AddFileStep(init: seq<MigrationFile>, c: Chain, f: MigrationFile)
    requires Acceptable(init) && ChainOf(init, c)
    ensures AddFile(c, f).Success? <==>
      && f.Parsed?
      && (forall i :: 0 <= i < |init| ==> init[i].revision != f.revision)
      && (forall i :: 0 <= i < |init| ==> init[i].downRevision != f.downRevision)
    ensures AddFile(c, f).Success? ==> AllParsed(init + [f]) && ChainOf(init + [f], AddFile(c, f).value)
  {
    var n := |init|;
    if f.Parsed? {
      if f.revision in c.links {
        var i :| 0 <= i < n && c.order[i] == f.revision;
        assert init[i].revision == f.revision;
      } else if f.downRevision in c.links.Values {
        var k :| k in c.links && c.links[k] == f.downRevision;
        var i :| 0 <= i < n && c.order[i] == k;
        assert init[i].downRevision == f.downRevision;
      } else {
        forall i | 0 <= i < n ensures init[i].downRevision != f.downRevision {
          assert c.links[c.order[i]] in c.links.Values;
        }
        var files := init + [f];
        var c' := AddFile(c, f).value;
        assert c'.order == c.order + [f.revision];
        assert Distinct(c'.order) by {
          forall i | 0 <= i < n ensures c'.order[i] != f.revision {
            assert c'.order[i] == c.order[i];
          }
        }
        forall i | 0 <= i < |files|
          ensures c'.order[i] == files[i].revision && c'.links[c'.order[i]] == files[i].downRevision
        {
          if i < n {
            assert c'.order[i] == c.order[i] && files[i] == init[i];
          }
        }
      }
    }
  }

  /**
   * The builder succeeds exactly when every file parses and neither a
   * revision nor a down-revision repeats; its result then holds every
   * file's pair, in file order.
   */
  lemma {:induction false} BuildSucceedsIff(files: seq<MigrationFile>)
    ensures BuildFiles(files).Success? <==> Acceptable(files)
    ensures BuildFiles(files).Success? ==> ChainOf(files, BuildFiles(files).value)
  {
    if files != [] {
      var n := |files| - 1;
      var init, f := files[..n], files[n];
      assert files == init + [f];
      BuildSucceedsIff(init);
      AcceptableSnoc(init, f);
      if BuildFiles(init).Success? {
        AddFileStep(init, BuildFiles(init).value, f);
      }
    }
  }

  /**
   * The revision test comes first: a file whose revision is already a key
   * raises `DuplicateRevisionError`, whatever its down-revision.
   */
  lemma DuplicateRevisionFirst(files: seq<MigrationFile>, n: nat)
    requires n < |files| && files[n].Parsed?
    requires BuildFiles(files[..n]).Success?
    requires files[n].revision in BuildFiles(files[..n]).value.links
    ensures Build(true, files) == Failure(DuplicateRevisionError(files[n].revision))
  {
    assert files[..n + 1][..n] == files[..n];
    FailureIsFinal(files, n + 1);
  }

  /**
   * A file with a new revision whose down-revision (`None` included) is
   * already a value raises `DuplicateDownRevisionError` for that value.
   */
  lemma DuplicateDownRevisionSecond(files: seq<MigrationFile>, n: nat)
    requires n < |files| && files[n].Parsed?
    requires BuildFiles(files[..n]).Success?
    requires files[n].revision !in BuildFiles(files[..n]).value.links
    requires files[n].downRevision in BuildFiles(files[..n]).value.links.Values
    ensures Build(true, files) == Failure(DuplicateDownRevisionError(files[n].downRevision, []))
  {
    assert files[..n + 1][..n] == files[..n];
    FailureIsFinal(files, n + 1);
  }

  /**
   * A built chain maps distinct revisions to distinct down-revisions, so at
   * most one revision has `None`.
   */
  lemma BuiltChainIsInjective(directoryExists: bool, files: seq<MigrationFile>)
    requires Build(directoryExists, files).Success?
    ensures var c := Build(directoryExists, files).value;
      c.WellFormed() &&
      forall a, b :: a in c.links && b in c.links && a != b ==> c.links[a] != c.links[b]
  {
    BuildSucceedsIff(files);
    var c := Build(directoryExists, files).value;
    forall a, b | a in c.links && b in c.links && a != b ensures c.links[a] != c.links[b] {
      var i :| 0 <= i < |c.order| && c.order[i] == a;
      var j :| 0 <= j < |c.order| && c.order[j] == b;
      assert i != j;
      if i < j {
        assert files[i].downRevision != files[j].downRevision;
      } else {
        assert files[j].downRevision != files[i].downRevision;
      }
    }
  }
}
