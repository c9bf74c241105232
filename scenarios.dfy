/**
 * The outcomes that the repository's validator tests pin, on the same
 * identifiers (tests/test_check_migrations.py:197-262).
 */
module Scenarios {
  import opened Wrappers
  import opened Exceptions
  import opened Seqs
  import opened StringOrder
  import opened Chains
  import opened CycleCheck
  import opened ChainValidator

  const R1: Revision := "1a2b3c4d5e6f"
  const R2: Revision := "2b3c4d5e6f7g"
  const R3: Revision := "3c4d5e6f7g8h"
  const R4: Revision := "4d5e6f7g8h9i"

  lemma RevisionsAscend()
    ensures Less(R1, R2) && Less(R2, R3) && Less(R1, R3)
  {
    assert R1[0] == '1' && R2[0] == '2' && R3[0] == '3';
  }

  lemma RevisionsSorted()
    ensures Sort([R1, R2, R3]) == [R1, R2, R3]
  {
    RevisionsAscend();
    assert Sort([R3]) == [R3];
    assert [R2, R3][1..] == [R3] && [R1, R2, R3][1..] == [R2, R3];
    assert Sort([R2, R3]) == Insert(R2, [R3]) == [R2, R3];
    assert Sort([R1, R2, R3]) == Insert(R1, [R2, R3]) == [R1, R2, R3];
  }

  lemma UpperRevisionsSorted()
    ensures Sort([R2, R3, R4]) == [R2, R3, R4]
  {
    assert Less(R3, R4) && Less(R2, R4) && Less(R2, R3) by {
      assert R2[0] == '2' && R3[0] == '3' && R4[0] == '4';
    }
    assert Sort([R4]) == [R4];
    assert [R3, R4][1..] == [R4] && [R2, R3, R4][1..] == [R3, R4];
    assert Sort([R3, R4]) == Insert(R3, [R4]) == [R3, R4];
  }

  lemma FourRevisionsSorted()
    ensures Sort([R1, R2, R3, R4]) == [R1, R2, R3, R4]
  {
    UpperRevisionsSorted();
    assert Less(R1, R2) by {
      assert R1[0] == '1' && R2[0] == '2';
    }
    assert [R1, R2, R3, R4][1..] == [R2, R3, R4];
    assert Insert(R1, [R2, R3, R4]) == [R1, R2, R3, R4];
  }

  /** One step of `check_cycle`: `current` is new, so it joins the path. */
  lemma WalkOn(links: Links, path: seq<Revision>, x: Revision)
    requires x !in path
    ensures Walk(links, path, Some(x)) == Walk(links, path + [x], Get(links, x))
  {
  }

  // ---- test_validate_migration_chain_circular ----

  const CircularLinks: Links := map[R1 := None, R2 := Some(R3), R3 := Some(R2)]
  const Circular: Chain := Chain([R1, R2, R3], CircularLinks)

  lemma CircularWellFormed()
    ensures Circular.WellFormed()
    ensures SortedRevisions(Circular) == [R1, R2, R3]
  {
    RevisionsAscend();
    RevisionsSorted();
  }

  lemma CircularRoots()
    ensures WithDown(CircularLinks, [R1, R2, R3], None) == [R1]
  {
    RevisionsAscend();
    var s := [R1, R2, R3];
    assert s[..2] == [R1, R2] && [R1, R2][..1] == [R1] && [R1][..0] == [];
    assert WithDown(CircularLinks, [R1], None) == [R1];
    assert WithDown(CircularLinks, [R1, R2], None) == [R1];
  }

  lemma CircularNoneMissing()
    ensures FirstMissing(CircularLinks, [R1, R2, R3]) == None
  {
    RevisionsAscend();
  }

  lemma CircularWalkFromR1()
    ensures CycleFrom(CircularLinks, R1) == None
  {
    WalkOn(CircularLinks, [], R1);
    assert [] + [R1] == [R1];
  }

  lemma CircularWalkClosing()
    ensures Walk(CircularLinks, [R2, R3], Some(R2)) == Some([R2, R3, R2])
  {
    assert IndexOf([R2, R3], R2) == 0;
    assert [R2, R3][0..] + [R2] == [R2, R3, R2];
  }

  lemma CircularWalkFromR2()
    ensures CycleFrom(CircularLinks, R2) == Some([R2, R3, R2])
  {
    RevisionsAscend();
    WalkOn(CircularLinks, [], R2);
    assert [] + [R2] == [R2];
    WalkOn(CircularLinks, [R2], R3);
    assert [R2] + [R3] == [R2, R3];
    CircularWalkClosing();
  }

  lemma CircularCycle()
    ensures FirstCycle(CircularLinks, [R1, R2, R3]) == Some([R2, R3, R2])
  {
    CircularWalkFromR1();
    CircularWalkFromR2();
    assert [R1, R2, R3][1..] == [R2, R3];
  }

  /** `{R1: None, R2: R3, R3: R2}` reports the cycle from R2, the first revision on it. */
  lemma CircularScenario()
    ensures Circular.WellFormed()
    ensures ValidationOutcome(Circular) == Fail(CircularDependencyError([R2, R3, R2]))
  {
    CircularWellFormed();
    CircularRoots();
    CircularNoneMissing();
    CircularCycle();
  }

  // ---- test_validate_migration_chain: "multiple initial" ----

  const TwoRootsLinks: Links := map[R1 := None, R2 := Some(R1), R3 := None]
  const TwoRoots: Chain := Chain([R1, R2, R3], TwoRootsLinks)

  lemma TwoRootsRoots()
    ensures WithDown(TwoRootsLinks, [R1, R2, R3], None) == [R1, R3]
  {
    RevisionsAscend();
    var s := [R1, R2, R3];
    assert s[..2] == [R1, R2] && [R1, R2][..1] == [R1] && [R1][..0] == [];
    assert WithDown(TwoRootsLinks, [R1], None) == [R1];
    assert WithDown(TwoRootsLinks, [R1, R2], None) == [R1];
  }

  /** `{R1: None, R2: R1, R3: None}` lists both initial migrations, ascending. */
  lemma MultipleInitialScenario()
    ensures TwoRoots.WellFormed()
    ensures ValidationOutcome(TwoRoots) == Fail(MultipleInitialMigrationsError([R1, R3]))
  {
    RevisionsAscend();
    RevisionsSorted();
    TwoRootsRoots();
  }

  // ---- test_validate_migration_chain: "missing down_revision" ----

  const Nonexistent: Revision := "nonexistent"
  const DanglingLinks: Links := map[R1 := None, R2 := Some(R1), R3 := Some(Nonexistent)]
  const DanglingChain: Chain := Chain([R1, R2, R3], DanglingLinks)

  lemma DanglingRoots()
    ensures WithDown(DanglingLinks, [R1, R2, R3], None) == [R1]
  {
    RevisionsAscend();
    var s := [R1, R2, R3];
    assert s[..2] == [R1, R2] && [R1, R2][..1] == [R1] && [R1][..0] == [];
    assert WithDown(DanglingLinks, [R1], None) == [R1];
    assert WithDown(DanglingLinks, [R1, R2], None) == [R1];
  }

  lemma DanglingFound()
    ensures FirstMissing(DanglingLinks, [R1, R2, R3]) == Some(R3)
  {
    RevisionsAscend();
    assert Nonexistent[0] == 'n';
    assert Nonexistent != R1 && Nonexistent != R2 && Nonexistent != R3;
    assert !Dangling(DanglingLinks, R1) && !Dangling(DanglingLinks, R2);
    assert Truthy(DanglingLinks[R3]) && Dangling(DanglingLinks, R3);
    assert [R1, R2, R3][1..] == [R2, R3] && [R2, R3][1..] == [R3];
  }

  lemma DanglingWellFormed()
    ensures DanglingChain.WellFormed()
    ensures SortedRevisions(DanglingChain) == [R1, R2, R3]
  {
    RevisionsAscend();
    RevisionsSorted();
  }

  lemma DanglingMissingFails()
    requires DanglingChain.WellFormed()
    ensures MissingCheck(DanglingChain) == Fail(MissingDownRevisionError(R3, Nonexistent))
  {
    DanglingWellFormed();
    DanglingFound();
  }

  /** `{R1: None, R2: R1, R3: "nonexistent"}` names R3 and the revision it points to. */
  lemma MissingDownRevisionScenario()
    ensures DanglingChain.WellFormed()
    ensures ValidationOutcome(DanglingChain) == Fail(MissingDownRevisionError(R3, Nonexistent))
  {
    DanglingWellFormed();
    DanglingRoots();
    DanglingMissingFails();
  }

  // ---- test_validate_migration_chain: "empty chain" ----

  /** An empty mapping passes. */
  lemma EmptyScenario()
    ensures EmptyChain.WellFormed() && ValidationOutcome(EmptyChain) == Pass
  {
  }

  /** `check_cycle` ends without a cycle when `current` is new and has no down-revision. */
  lemma WalkEnds(links: Links, path: seq<Revision>, x: Revision)
    requires x !in path && Get(links, x) == None
    ensures Walk(links, path, Some(x)) == None
  {
    WalkOn(links, path, x);
  }

  // ---- test_validate_migration_chain: "valid chain" ----

  const LinearLinks: Links := map[R1 := None, R2 := Some(R1), R3 := Some(R2)]
  const Linear: Chain := Chain([R1, R2, R3], LinearLinks)

  lemma LinearRoots()
    ensures WithDown(LinearLinks, [R1, R2, R3], None) == [R1]
  {
    RevisionsAscend();
    var s := [R1, R2, R3];
    assert s[..2] == [R1, R2] && [R1, R2][..1] == [R1] && [R1][..0] == [];
    assert WithDown(LinearLinks, [R1], None) == [R1];
    assert WithDown(LinearLinks, [R1, R2], None) == [R1];
  }

  lemma LinearNoneMissing()
    ensures FirstMissing(LinearLinks, [R1, R2, R3]) == None
  {
    RevisionsAscend();
  }

  lemma LinearWalks()
    ensures CycleFrom(LinearLinks, R1) == None
    ensures CycleFrom(LinearLinks, R2) == None
    ensures CycleFrom(LinearLinks, R3) == None
  {
    RevisionsAscend();
    assert [] + [R1] == [R1] && [] + [R2] == [R2] && [] + [R3] == [R3];
    assert [R2] + [R1] == [R2, R1] && [R3] + [R2] == [R3, R2] && [R3, R2] + [R1] == [R3, R2, R1];
    WalkEnds(LinearLinks, [], R1);
    WalkOn(LinearLinks, [], R2);
    WalkEnds(LinearLinks, [R2], R1);
    WalkOn(LinearLinks, [], R3);
    WalkOn(LinearLinks, [R3], R2);
    WalkEnds(LinearLinks, [R3, R2], R1);
  }

  lemma LinearGroups()
    ensures GroupByDown(LinearLinks, [R1, R2, R3]) == Groups([R1, R2], map[R1 := [R2], R2 := [R3]])
  {
    RevisionsAscend();
    var s := [R1, R2, R3];
    assert s[..2] == [R1, R2] && [R1, R2][..1] == [R1] && [R1][..0] == [];
    assert GroupByDown(LinearLinks, [R1]) == Groups([], map[]);
    assert GroupByDown(LinearLinks, [R1, R2]) == Groups([R1], map[R1 := [R2]]);
  }

  lemma LinearWellFormed()
    ensures Linear.WellFormed()
    ensures SortedRevisions(Linear) == [R1, R2, R3]
  {
    RevisionsAscend();
    RevisionsSorted();
  }

  lemma LinearDuplicatesPass()
    requires Linear.WellFormed()
    ensures DuplicatesCheck(Linear) == Pass
  {
    LinearWellFormed();
    LinearGroups();
    var members := map[R1 := [R2], R2 := [R3]];
    assert [R1, R2][1..] == [R2];
    assert FirstShared([R1, R2], members) == None;
  }

  lemma LinearCyclesPass()
    requires Linear.WellFormed()
    ensures CyclesCheck(Linear) == Pass
  {
    LinearWalks();
    assert FirstCycle(LinearLinks, [R1, R2, R3]) == None;
    LinearDuplicatesPass();
  }

  /** `{R1: None, R2: R1, R3: R2}` passes every check. */
  lemma ValidScenario()
    ensures Linear.WellFormed()
    ensures ValidationOutcome(Linear) == Pass
  {
    LinearWellFormed();
    LinearRoots();
    LinearNoneMissing();
    LinearCyclesPass();
  }

  // ---- test_validate_migration_chain: "duplicate down_revision" ----

  const ForkLinks: Links := map[R1 := None, R2 := Some(R1), R3 := Some(R2), R4 := Some(R2)]
  const Fork: Chain := Chain([R1, R2, R3, R4], ForkLinks)

  lemma RevisionsDiffer()
    ensures R1 != R2 && R1 != R3 && R1 != R4 && R2 != R3 && R2 != R4 && R3 != R4
  {
    assert R1[0] == '1' && R2[0] == '2' && R3[0] == '3' && R4[0] == '4';
  }

  lemma ForkRoots()
    ensures WithDown(ForkLinks, [R1, R2, R3, R4], None) == [R1]
  {
    RevisionsDiffer();
    var s := [R1, R2, R3, R4];
    assert s[..3] == [R1, R2, R3] && [R1, R2, R3][..2] == [R1, R2] && [R1, R2][..1] == [R1] && [R1][..0] == [];
    assert WithDown(ForkLinks, [R1], None) == [R1];
    assert WithDown(ForkLinks, [R1, R2], None) == [R1];
    assert WithDown(ForkLinks, [R1, R2, R3], None) == [R1];
  }

  lemma ForkNoneMissing()
    ensures FirstMissing(ForkLinks, [R1, R2, R3, R4]) == None
  {
    RevisionsDiffer();
  }

  lemma ForkWalksShort()
    ensures CycleFrom(ForkLinks, R1) == None
    ensures CycleFrom(ForkLinks, R2) == None
  {
    RevisionsDiffer();
    assert [] + [R1] == [R1] && [] + [R2] == [R2] && [R2] + [R1] == [R2, R1];
    WalkEnds(ForkLinks, [], R1);
    WalkOn(ForkLinks, [], R2);
    WalkEnds(ForkLinks, [R2], R1);
  }

  lemma ForkWalkFrom(x: Revision)
    requires x == R3 || x == R4
    ensures CycleFrom(ForkLinks, x) == None
  {
    RevisionsDiffer();
    assert [] + [x] == [x] && [x] + [R2] == [x, R2] && [x, R2] + [R1] == [x, R2, R1];
    WalkOn(ForkLinks, [], x);
    WalkOn(ForkLinks, [x], R2);
    WalkEnds(ForkLinks, [x, R2], R1);
  }

  lemma ForkAcyclicScan()
    ensures FirstCycle(ForkLinks, [R1, R2, R3, R4]) == None
  {
    ForkWalksShort();
    ForkWalkFrom(R3);
    ForkWalkFrom(R4);
  }

  lemma ForkGroups()
    ensures GroupByDown(ForkLinks, [R1, R2, R3, R4]) == Groups([R1, R2], map[R1 := [R2], R2 := [R3, R4]])
  {
    RevisionsDiffer();
    var s := [R1, R2, R3, R4];
    assert s[..3] == [R1, R2, R3] && [R1, R2, R3][..2] == [R1, R2] && [R1, R2][..1] == [R1] && [R1][..0] == [];
    assert GroupByDown(ForkLinks, [R1]) == Groups([], map[]);
    assert GroupByDown(ForkLinks, [R1, R2]) == Groups([R1], map[R1 := [R2]]);
    assert GroupByDown(ForkLinks, [R1, R2, R3]) == Groups([R1, R2], map[R1 := [R2], R2 := [R3]]);
    assert [R3] + [R4] == [R3, R4];
  }

  lemma ForkKeys()
    ensures Fork.WellFormed()
  {
    RevisionsDiffer();
    assert ForkLinks.Keys == {R1, R2, R3, R4};
    assert forall r :: r in [R1, R2, R3, R4] <==> r == R1 || r == R2 || r == R3 || r == R4;
  }

  lemma ForkWellFormed()
    ensures Fork.WellFormed()
    ensures SortedRevisions(Fork) == [R1, R2, R3, R4]
  {
    ForkKeys();
    FourRevisionsSorted();
  }

  lemma ForkDuplicatesFail()
    requires Fork.WellFormed()
    ensures DuplicatesCheck(Fork) == Fail(DuplicateDownRevisionError(Some(R2), [R3, R4]))
  {
    ForkWellFormed();
    ForkGroups();
    var members := map[R1 := [R2], R2 := [R3, R4]];
    assert [R1, R2][1..] == [R2];
    assert FirstShared([R1, R2], members) == Some(R2);
  }

  /** Two revisions on R2: reported with R2 and both revisions, ascending. */
  lemma DuplicateDownRevisionScenario()
    ensures Fork.WellFormed()
    ensures ValidationOutcome(Fork) == Fail(DuplicateDownRevisionError(Some(R2), [R3, R4]))
  {
    ForkWellFormed();
    ForkRoots();
    ForkNoneMissing();
    ForkAcyclicScan();
    ForkDuplicatesFail();
  }
}
