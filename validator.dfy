/**
 * `validate_migration_chain`: four checks run in a fixed order, and the
 * first that fails raises. Multiple initial migrations, then a dangling
 * down-revision, then a cycle, then a down-revision shared by several
 * revisions.
 */
module ChainValidator {
  import opened Wrappers
  import opened Exceptions
  import opened Seqs
  import opened StringOrder
  import opened Chains
  import opened CycleCheck

  /** The keys of `sorted(migrations.items())`: every revision once, ascending. */
  function SortedRevisions(c: Chain): (sorted: seq<Revision>)
    requires c.WellFormed()
    ensures StrictlyAscending(sorted)
    ensures forall r :: r in sorted <==> r in c.links
  {
    SortAscending(c.order);
    var sorted := Sort(c.order);
    assert forall r :: r in sorted <==> r in multiset(c.order);
    sorted
  }

  /**
   * The revisions of `revs`, in the order of `revs`, whose down-revision is
   * `down`. With `down == None` this is the list of initial migrations.
   */
  function WithDown(links: Links, revs: seq<Revision>, down: Option<Revision>): (r: seq<Revision>)
    requires forall k :: k in revs ==> k in links
    ensures forall k :: k in r <==> k in revs && links[k] == down
  {
    if revs == [] then []
    else
      var last := revs[|revs| - 1];
      assert revs == revs[..|revs| - 1] + [last];
      WithDown(links, revs[..|revs| - 1], down) + (if links[last] == down then [last] else [])
  }

  /** Line 131: the down-revision is truthy and not a key. */
  predicate Dangling(links: Links, r: Revision)
    requires r in links
  {
    Truthy(links[r]) && links[r].value !in links
  }

  /** The missing-down-revision scan: the first revision of `revs` that dangles. */
  function FirstMissing(links: Links, revs: seq<Revision>): (r: Option<Revision>)
    requires forall k :: k in revs ==> k in links
    ensures r.Some? ==> r.value in revs && Dangling(links, r.value)
    ensures r.None? <==> forall k :: k in revs ==> !Dangling(links, k)
  {
    if revs == [] then None
    else if Dangling(links, revs[0]) then Some(revs[0])
    else
      assert forall k :: k in revs ==> k == revs[0] || k in revs[1..];
      FirstMissing(links, revs[1..])
  }

  /** The cycle scan: `check_cycle` from each of `revs` in turn; the first cycle found. */
  function FirstCycle(links: Links, revs: seq<Revision>): (r: Option<seq<Revision>>)
    ensures r.Some? ==> ClosedCycle(links, r.value) && |r.value| <= |links| + 1
    ensures r.None? <==> forall k :: k in revs ==> CycleFrom(links, k).None?
  {
    if revs == [] then None
    else
      match CycleFrom(links, revs[0])
      case Some(cycle) =>
        CycleFromSound(links, revs[0]);
        Some(cycle)
      case None =>
        assert forall k :: k in revs ==> k == revs[0] || k in revs[1..];
        FirstCycle(links, revs[1..])
  }

  /** `down_revisions`: its keys in insertion order, and the revisions listed under each. */
  datatype Groups = Groups(order: seq<Revision>, members: map<Revision, seq<Revision>>)

  /** The grouping loop (lines 162-165) after it has consumed `revs`. */
  function GroupByDown(links: Links, revs: seq<Revision>): (g: Groups)
    requires forall k :: k in revs ==> k in links
    ensures forall d :: d in g.order <==> d in g.members
    ensures forall d :: d in g.members ==> g.members[d] != []
  {
    if revs == [] then Groups([], map[])
    else
      var g := GroupByDown(links, revs[..|revs| - 1]);
      var rev := revs[|revs| - 1];
      match links[rev]
      case None => g
      case Some(down) =>
        if down in g.members then Groups(g.order, g.members[down := g.members[down] + [rev]])
        else Groups(g.order + [down], g.members[down := [rev]])
  }

  /** The scan over the groups (lines 167-172): the first listing more than one revision. */
  function FirstShared(order: seq<Revision>, members: map<Revision, seq<Revision>>): (r: Option<Revision>)
    requires forall d :: d in order ==> d in members
    ensures r.Some? ==> r.value in order && |members[r.value]| > 1
    ensures r.None? <==> forall d :: d in order ==> |members[d]| <= 1
  {
    if order == [] then None
    else if |members[order[0]]| > 1 then Some(order[0])
    else
      assert forall d :: d in order ==> d == order[0] || d in order[1..];
      FirstShared(order[1..], members)
  }

  /** Every group scanned before the reported one lists at most one revision. */
  lemma {:induction false} FirstSharedIsFirst(order: seq<Revision>, members: map<Revision, seq<Revision>>)
    requires forall d :: d in order ==> d in members
    requires FirstShared(order, members).Some?
    ensures forall i :: 0 <= i < IndexOf(order, FirstShared(order, members).value) ==> |members[order[i]]| <= 1
  {
    if |members[order[0]]| <= 1 {
      var d := FirstShared(order, members).value;
      FirstSharedIsFirst(order[1..], members);
      assert IndexOf(order, d) == 1 + IndexOf(order[1..], d);
      forall i | 1 <= i < IndexOf(order, d) ensures |members[order[i]]| <= 1 {
        assert order[i] == order[1..][i - 1];
      }
    }
  }

  /** What `validate_migration_chain` returns or raises. */
  function ValidationOutcome(c: Chain): Outcome<MigrationError>
    requires c.WellFormed()
  {
    if c.order == [] then Pass else InitialCheck(c)
  }

  /** Check 1 (lines 122-127), and the later checks if it passes. */
  function InitialCheck(c: Chain): (out: Outcome<MigrationError>)
    requires c.WellFormed()
  {
    var initial := WithDown(c.links, SortedRevisions(c), None);
    if |initial| > 1 then Fail(MultipleInitialMigrationsError(initial))
    else MissingCheck(c)
  }

  /** Check 2 (lines 130-134), and the later checks if it passes. */
  function MissingCheck(c: Chain): (out: Outcome<MigrationError>)
    requires c.WellFormed()
    ensures out.Fail? ==> out.error.MissingDownRevisionError? || out.error.CircularDependencyError? ||
                          out.error.DuplicateDownRevisionError?
  {
    match FirstMissing(c.links, SortedRevisions(c))
    case Some(rev) => Fail(MissingDownRevisionError(rev, c.links[rev].value))
    case None => CyclesCheck(c)
  }

  /** Check 3 (lines 154-159), and the last check if it passes. */
  function CyclesCheck(c: Chain): (out: Outcome<MigrationError>)
    requires c.WellFormed()
    ensures out.Fail? ==> out.error.CircularDependencyError? || out.error.DuplicateDownRevisionError?
  {
    match FirstCycle(c.links, c.order)
    case Some(cycle) => Fail(CircularDependencyError(cycle))
    case None => DuplicatesCheck(c)
  }

  /** Check 4 (lines 162-172). */
  function DuplicatesCheck(c: Chain): (out: Outcome<MigrationError>)
    requires c.WellFormed()
    ensures out.Fail? ==> out.error.DuplicateDownRevisionError? && out.error.shared.Some?
  {
    var groups := GroupByDown(c.links, SortedRevisions(c));
    match FirstShared(groups.order, groups.members)
    case Some(down) => Fail(DuplicateDownRevisionError(Some(down), groups.members[down]))
    case None => Pass
  }

  method ValidateMigrationChain(c: Chain) returns (r: Outcome<MigrationError>)
    requires c.WellFormed()
    ensures r == ValidationOutcome(c)
  {
    if |c.order| == 0 {
      return Pass;
    }
    var sorted := SortedRevisions(c);

    var initial := WithDown(c.links, sorted, None);
    if |initial| > 1 {
      return Fail(MultipleInitialMigrationsError(initial));
    }

    var missing := FindMissing(c.links, sorted);
    if missing.Some? {
      return Fail(MissingDownRevisionError(missing.value, c.links[missing.value].value));
    }

    var cycle := FindCycle(c.links, c.order);
    if cycle.Some? {
      return Fail(CircularDependencyError(cycle.value));
    }

    var groups := GroupDownRevisions(c.links, sorted);
    var shared := FindShared(groups);
    if shared.Some? {
      return Fail(DuplicateDownRevisionError(shared, groups.members[shared.value]));
    }
    return Pass;
  }

  /** Lines 130-134: scan the sorted revisions for one whose down-revision dangles. */
  method FindMissing(links: Links, sorted: seq<Revision>) returns (missing: Option<Revision>)
    requires forall k :: k in sorted ==> k in links
    ensures missing == FirstMissing(links, sorted)
  {
    for i := 0 to |sorted|
      invariant FirstMissing(links, sorted[i..]) == FirstMissing(links, sorted)
    {
      var rev := sorted[i];
      var down := links[rev];
      assert sorted[i..][1..] == sorted[i + 1..];
      if Truthy(down) && down.value !in links {
        return Some(rev);
      }
    }
    return None;
  }

  /** Lines 154-159: run `check_cycle` from each revision in insertion order. */
  method FindCycle(links: Links, order: seq<Revision>) returns (cycle: Option<seq<Revision>>)
    ensures cycle == FirstCycle(links, order)
  {
    for i := 0 to |order|
      invariant FirstCycle(links, order[i..]) == FirstCycle(links, order)
    {
      cycle := CheckCycle(links, order[i]);
      assert order[i..][1..] == order[i + 1..];
      if cycle.Some? {
        return;
      }
    }
    return None;
  }

  /** Lines 162-165: `down_revisions.setdefault(down, []).append(rev)` over the sorted revisions. */
  method GroupDownRevisions(links: Links, sorted: seq<Revision>) returns (groups: Groups)
    requires forall k :: k in sorted ==> k in links
    ensures groups == GroupByDown(links, sorted)
  {
    var downOrder: seq<Revision> := [];
    var downRevisions: map<Revision, seq<Revision>> := map[];
    for i := 0 to |sorted|
      invariant GroupByDown(links, sorted[..i]) == Groups(downOrder, downRevisions)
    {
      var rev := sorted[i];
      assert sorted[..i + 1][..i] == sorted[..i] && sorted[..i + 1][i] == rev;
      match links[rev]
      case None =>
      case Some(down) =>
        if down !in downRevisions {
          downOrder := downOrder + [down];
          downRevisions := downRevisions[down := []];
          assert [] + [rev] == [rev];
        }
        downRevisions := downRevisions[down := downRevisions[down] + [rev]];
    }
    assert sorted[..|sorted|] == sorted;
    return Groups(downOrder, downRevisions);
  }

  /** Lines 167-172: the first group, in insertion order, with more than one revision. */
  method FindShared(groups: Groups) returns (shared: Option<Revision>)
    requires forall d :: d in groups.order ==> d in groups.members
    ensures shared == FirstShared(groups.order, groups.members)
  {
    for i := 0 to |groups.order|
      invariant FirstShared(groups.order[i..], groups.members) == FirstShared(groups.order, groups.members)
    {
      var down := groups.order[i];
      assert groups.order[i..][1..] == groups.order[i + 1..];
      if |groups.members[down]| > 1 {
        return Some(down);
      }
    }
    return None;
  }
}
