/**
 * What the validator's outcome means: each check fires exactly when its
 * structural property fails (given that the earlier checks passed), it
 * reports the offender its scan meets first, and validation passes exactly
 * on a well-formed chain.
 */
module ValidatorProperties {
  import opened Wrappers
  import opened Exceptions
  import opened Seqs
  import opened StringOrder
  import opened Chains
  import opened CycleCheck
  import opened ChainValidator

  /** At most one revision is an initial migration. */
  ghost predicate AtMostOneInitial(links: Links)
  {
    forall a, b :: a in links && b in links && links[a] == None && links[b] == None ==> a == b
  }

  /** Every truthy down-revision is itself a revision. */
  ghost predicate DownRevisionsResolve(links: Links)
  {
    forall r :: r in links ==> !Dangling(links, r)
  }

  /** No two revisions share a (non-`None`) down-revision. */
  ghost predicate DownRevisionsUnique(links: Links)
  {
    forall a, b :: a in links && b in links && a != b && links[a].Some? ==> links[a] != links[b]
  }

  /** The four properties the validator checks. */
  ghost predicate IsValidChain(links: Links)
  {
    AtMostOneInitial(links) && DownRevisionsResolve(links) && Acyclic(links) && DownRevisionsUnique(links)
  }

  /** A sequence holding two different elements has more than one element. */
  lemma TwoElements(s: seq<Revision>, a: Revision, b: Revision)
    requires a in s && b in s && a != b
    ensures |s| > 1
  {
  }

  /** The head of an ascending sequence is its least element. */
  lemma HeadIsLeast(s: seq<Revision>, x: Revision)
    requires StrictlyAscending(s) && x in s
    ensures x == s[0] || Less(s[0], x)
  {
    var i :| 0 <= i < |s| && s[i] == x;
    if i > 0 {
      assert Less(s[0], s[i]);
    }
  }

  /** Dropping the last element of an ascending sequence keeps it ascending. */
  lemma AscendingInit(revs: seq<Revision>)
    requires StrictlyAscending(revs) && revs != []
    ensures StrictlyAscending(revs[..|revs| - 1])
  {
    var init := revs[..|revs| - 1];
    forall i, j | 0 <= i < j < |init| ensures Less(init[i], init[j]) {
      assert init[i] == revs[i] && init[j] == revs[j];
    }
  }

  /** Dropping the first element of an ascending sequence keeps it ascending. */
  lemma AscendingTail(revs: seq<Revision>)
    requires StrictlyAscending(revs) && revs != []
    ensures StrictlyAscending(revs[1..])
  {
    var tail := revs[1..];
    forall i, j | 0 <= i < j < |tail| ensures Less(tail[i], tail[j]) {
      assert tail[i] == revs[i + 1] && tail[j] == revs[j + 1];
    }
  }

  /** Filtering keeps an ascending sequence ascending. */
  lemma {:induction false} WithDownAscending(links: Links, revs: seq<Revision>, down: Option<Revision>)
    requires forall k :: k in revs ==> k in links
    requires StrictlyAscending(revs)
    ensures StrictlyAscending(WithDown(links, revs, down))
  {
    if revs != [] {
      var n := |revs| - 1;
      var init, last := revs[..n], revs[n];
      AscendingInit(revs);
      WithDownAscending(links, init, down);
      var front := WithDown(links, init, down);
      forall x | x in front ensures Less(x, last) {
        var i :| 0 <= i < |init| && init[i] == x;
        assert revs[i] == x;
      }
    }
  }

  /** The minimality of the missing-down-revision scan over ascending revisions. */
  lemma {:induction false} FirstMissingIsLeast(links: Links, revs: seq<Revision>)
    requires forall k :: k in revs ==> k in links
    requires StrictlyAscending(revs)
    requires FirstMissing(links, revs).Some?
    ensures forall k :: k in revs && Less(k, FirstMissing(links, revs).value) ==> !Dangling(links, k)
  {
    var r := FirstMissing(links, revs).value;
    if r == revs[0] && Dangling(links, revs[0]) {
      forall k | k in revs && Less(k, r) ensures false {
        HeadIsLeast(revs, k);
        if k == r {
          LessIrreflexive(k);
        } else {
          LessAsymmetric(k, r);
        }
      }
    } else {
      assert !Dangling(links, revs[0]);
      AscendingTail(revs);
      FirstMissingIsLeast(links, revs[1..]);
      forall k | k in revs && Less(k, r) ensures !Dangling(links, k) {
        if k != revs[0] {
          assert k in revs[1..];
        }
      }
    }
  }

  /** The cycle reported is the one `check_cycle` finds from the first revision that has one. */
  lemma {:induction false} FirstCycleIsFirst(links: Links, revs: seq<Revision>)
    requires FirstCycle(links, revs).Some?
    ensures exists i :: 0 <= i < |revs| && CycleFrom(links, revs[i]) == FirstCycle(links, revs) &&
                        forall j :: 0 <= j < i ==> CycleFrom(links, revs[j]).None?
  {
    if CycleFrom(links, revs[0]).Some? {
      assert CycleFrom(links, revs[0]) == FirstCycle(links, revs);
    } else {
      FirstCycleIsFirst(links, revs[1..]);
      var i :| 0 <= i < |revs[1..]| && CycleFrom(links, revs[1..][i]) == FirstCycle(links, revs[1..]) &&
               forall j :: 0 <= j < i ==> CycleFrom(links, revs[1..][j]).None?;
      assert revs[i + 1] == revs[1..][i];
      forall j | 0 <= j < i + 1 ensures CycleFrom(links, revs[j]).None? {
        if j > 0 {
          assert revs[j] == revs[1..][j - 1];
        }
      }
    }
  }

  /** Each group lists exactly the revisions with that down-revision, in scan order. */
  lemma {:induction false} GroupMembers(links: Links, revs: seq<Revision>)
    requires forall k :: k in revs ==> k in links
    ensures var g := GroupByDown(links, revs);
      && (forall d :: d in g.members ==> g.members[d] == WithDown(links, revs, Some(d)) && g.members[d] != [])
      && (forall d :: d !in g.members ==> WithDown(links, revs, Some(d)) == [])
  {
    if revs != [] {
      var n := |revs| - 1;
      var init, rev := revs[..n], revs[n];
      GroupMembers(links, init);
      var g := GroupByDown(links, init);
      var g' := GroupByDown(links, revs);
      forall d ensures WithDown(links, revs, Some(d)) ==
                       WithDown(links, init, Some(d)) + (if links[rev] == Some(d) then [rev] else []) {
      }
      match links[rev]
      case None =>
        assert g' == g;
      case Some(down) =>
        if down in g.members {
          assert g' == Groups(g.order, g.members[down := g.members[down] + [rev]]);
        } else {
          assert g' == Groups(g.order + [down], g.members[down := [rev]]);
        }
    }
  }

  /**
   * Over ascending revisions the groups are listed once each, in the order
   * in which their first members appear.
   */
  lemma {:induction false} GroupOrder(links: Links, revs: seq<Revision>)
    requires forall k :: k in revs ==> k in links
    requires StrictlyAscending(revs)
    ensures var g := GroupByDown(links, revs);
      && Distinct(g.order)
      && (forall i, j :: 0 <= i < j < |g.order| ==> Less(g.members[g.order[i]][0], g.members[g.order[j]][0]))
  {
    if revs != [] {
      var n := |revs| - 1;
      var init, rev := revs[..n], revs[n];
      AscendingInit(revs);
      GroupOrder(links, init);
      var g := GroupByDown(links, init);
      var g' := GroupByDown(links, revs);
      match links[rev]
      case None =>
        assert g' == g;
      case Some(down) =>
        if down in g.members {
          assert g' == Groups(g.order, g.members[down := g.members[down] + [rev]]);
          GroupOrderExtend(g, down, rev);
        } else {
          assert g' == Groups(g.order + [down], g.members[down := [rev]]);
          GroupMembers(links, init);
          forall d | d in g.members ensures Less(g.members[d][0], rev) {
            assert g.members[d][0] in WithDown(links, init, Some(d));
            var k :| 0 <= k < |init| && init[k] == g.members[d][0];
            assert revs[k] == init[k];
          }
          GroupOrderOpen(g, down, rev);
        }
    }
  }

  /** Appending to an existing group keeps every group's first member. */
  lemma GroupOrderExtend(g: Groups, down: Revision, rev: Revision)
    requires forall d :: d in g.order <==> d in g.members
    requires forall d :: d in g.members ==> g.members[d] != []
    requires Distinct(g.order) && down in g.members
    requires forall i, j :: 0 <= i < j < |g.order| ==> Less(g.members[g.order[i]][0], g.members[g.order[j]][0])
    ensures var g' := Groups(g.order, g.members[down := g.members[down] + [rev]]);
      forall i, j :: 0 <= i < j < |g'.order| ==> Less(g'.members[g'.order[i]][0], g'.members[g'.order[j]][0])
  {
    var g' := Groups(g.order, g.members[down := g.members[down] + [rev]]);
    forall d | d in g.members ensures g'.members[d][0] == g.members[d][0] {
    }
  }

  /** Opening a group for a revision larger than every first member keeps the order. */
  lemma GroupOrderOpen(g: Groups, down: Revision, rev: Revision)
    requires forall d :: d in g.order <==> d in g.members
    requires forall d :: d in g.members ==> g.members[d] != [] && Less(g.members[d][0], rev)
    requires Distinct(g.order) && down !in g.members
    requires forall i, j :: 0 <= i < j < |g.order| ==> Less(g.members[g.order[i]][0], g.members[g.order[j]][0])
    ensures var g' := Groups(g.order + [down], g.members[down := [rev]]);
      && Distinct(g'.order)
      && forall i, j :: 0 <= i < j < |g'.order| ==> Less(g'.members[g'.order[i]][0], g'.members[g'.order[j]][0])
  {
    var g' := Groups(g.order + [down], g.members[down := [rev]]);
    forall i | 0 <= i < |g.order| ensures g'.order[i] == g.order[i] != down {
    }
    forall i, j | 0 <= i < j < |g'.order| ensures Less(g'.members[g'.order[i]][0], g'.members[g'.order[j]][0]) {
      assert g'.members[g'.order[i]] == g.members[g.order[i]];
      if j < |g.order| {
        assert g'.members[g'.order[j]] == g.members[g.order[j]];
      }
    }
  }


  /** Check 4 finds no shared group exactly when down-revisions are unique. */
  lemma DuplicateStagePasses(c: Chain)
    requires c.WellFormed()
    ensures var g := GroupByDown(c.links, SortedRevisions(c));
      FirstShared(g.order, g.members).None? <==> DownRevisionsUnique(c.links)
  {
    var sorted := SortedRevisions(c);
    var g := GroupByDown(c.links, sorted);
    var r := FirstShared(g.order, g.members);
    GroupMembers(c.links, sorted);
    if r.None? {
      forall a, b | a in c.links && b in c.links && a != b && c.links[a].Some? ensures c.links[a] != c.links[b] {
        var d := c.links[a].value;
        if c.links[b] == Some(d) {
          var revs := WithDown(c.links, sorted, Some(d));
          TwoElements(revs, a, b);
        }
      }
    } else {
      var revs := g.members[r.value];
      WithDownAscending(c.links, sorted, Some(r.value));
      AscendingIsDistinct(revs);
      assert revs[0] != revs[1];
      assert revs[0] in revs && revs[1] in revs;
    }
  }

  /** The group check 4 reports lists exactly the revisions sharing it, ascending. */
  lemma DuplicateStageGroup(c: Chain)
    requires c.WellFormed()
    ensures var g := GroupByDown(c.links, SortedRevisions(c));
      var r := FirstShared(g.order, g.members);
      r.Some? ==>
        var revs := g.members[r.value];
        && |revs| > 1 && StrictlyAscending(revs)
        && (forall k :: k in revs <==> k in c.links && c.links[k] == Some(r.value))
  {
    var sorted := SortedRevisions(c);
    var g := GroupByDown(c.links, sorted);
    var r := FirstShared(g.order, g.members);
    GroupMembers(c.links, sorted);
    if r.Some? {
      WithDownAscending(c.links, sorted, Some(r.value));
    }
  }

  /** No revision sorting before the reported group's first member shares its down-revision. */
  lemma DuplicateStageFirst(c: Chain, k: Revision, k': Revision)
    requires c.WellFormed()
    requires k in c.links && k' in c.links && k != k' && c.links[k].Some? && c.links[k] == c.links[k']
    requires var g := GroupByDown(c.links, SortedRevisions(c));
      FirstShared(g.order, g.members).Some?
    ensures var g := GroupByDown(c.links, SortedRevisions(c));
      !Less(k, g.members[FirstShared(g.order, g.members).value][0])
  {
    var sorted := SortedRevisions(c);
    var g := GroupByDown(c.links, sorted);
    var d := FirstShared(g.order, g.members).value;
    var revs := g.members[d];
    GroupMembers(c.links, sorted);
    GroupOrder(c.links, sorted);
    FirstSharedIsFirst(g.order, g.members);
    var j := IndexOf(g.order, d);
    var d' := c.links[k].value;
    var revs' := WithDown(c.links, sorted, Some(d'));
    TwoElements(revs', k, k');
    assert d' in g.members;
    WithDownAscending(c.links, sorted, Some(d'));
    HeadIsLeast(revs', k);
    if Less(k, revs[0]) {
      if d' == d {
        WithDownAscending(c.links, sorted, Some(d));
        HeadIsLeast(revs, k);
        if k == revs[0] {
          LessIrreflexive(k);
        } else {
          LessAsymmetric(revs[0], k);
        }
      } else {
        var j' := IndexOf(g.order, d');
        assert j < j';
        assert Less(revs[0], revs'[0]);
        if k != revs'[0] {
          LessTransitive(revs[0], revs'[0], k);
        }
        LessAsymmetric(revs[0], k);
      }
    }
  }

  /** The duplicate-down-revision stage, stated on the whole chain. */
  lemma DuplicateStageSpec(c: Chain)
    requires c.WellFormed()
    ensures var sorted := SortedRevisions(c);
      var g := GroupByDown(c.links, sorted);
      var r := FirstShared(g.order, g.members);
      && (r.None? <==> DownRevisionsUnique(c.links))
      && (r.Some? ==>
            var revs := g.members[r.value];
            && |revs| > 1 && StrictlyAscending(revs)
            && (forall k :: k in revs <==> k in c.links && c.links[k] == Some(r.value))
            && (forall k, k' :: (k in c.links && k' in c.links && k != k' && c.links[k].Some? &&
                  c.links[k] == c.links[k']) ==> !Less(k, revs[0])))
  {
    DuplicateStagePasses(c);
    DuplicateStageGroup(c);
    var g := GroupByDown(c.links, SortedRevisions(c));
    if FirstShared(g.order, g.members).Some? {
      forall k, k' | k in c.links && k' in c.links && k != k' && c.links[k].Some? && c.links[k] == c.links[k']
        ensures !Less(k, g.members[FirstShared(g.order, g.members).value][0])
      {
        DuplicateStageFirst(c, k, k');
      }
    }
  }

  /**
   * Check 1 fires exactly when two revisions are initial migrations, and
   * lists every initial migration, ascending. It runs before every other check.
   */
  lemma MultipleInitialReported(c: Chain)
    requires c.WellFormed()
    ensures var out := ValidationOutcome(c);
      out.Fail? && out.error.MultipleInitialMigrationsError? <==> !AtMostOneInitial(c.links)
    ensures var out := ValidationOutcome(c);
      out.Fail? && out.error.MultipleInitialMigrationsError? ==>
        && StrictlyAscending(out.error.initial)
        && forall r :: r in out.error.initial <==> r in c.links && c.links[r] == None
    ensures AtMostOneInitial(c.links) && c.order != [] ==> ValidationOutcome(c) == MissingCheck(c)
  {
    if c.order != [] {
      var sorted := SortedRevisions(c);
      var initial := WithDown(c.links, sorted, None);
      WithDownAscending(c.links, sorted, None);
      if |initial| > 1 {
        AscendingIsDistinct(initial);
        assert initial[0] != initial[1] && initial[0] in initial && initial[1] in initial;
      } else {
        forall a, b | a in c.links && b in c.links && c.links[a] == None && c.links[b] == None ensures a == b {
          if a != b {
            TwoElements(initial, a, b);
          }
        }
      }
    }
  }

  /** Check 2 passes exactly when every truthy down-revision resolves. */
  lemma MissingCheckPasses(c: Chain)
    requires c.WellFormed()
    ensures DownRevisionsResolve(c.links) ==> MissingCheck(c) == CyclesCheck(c)
    ensures !DownRevisionsResolve(c.links) ==> MissingCheck(c).Fail? && MissingCheck(c).error.MissingDownRevisionError?
  {
  }

  /**
   * With at most one initial migration, check 2 fires exactly when a truthy
   * down-revision is not a revision, and names the least such revision.
   */
  lemma MissingDownRevisionReported(c: Chain)
    requires c.WellFormed() && AtMostOneInitial(c.links)
    ensures var out := ValidationOutcome(c);
      out.Fail? && out.error.MissingDownRevisionError? <==> !DownRevisionsResolve(c.links)
    ensures var out := ValidationOutcome(c);
      out.Fail? && out.error.MissingDownRevisionError? ==>
        var rev := out.error.revision;
        && rev in c.links && Dangling(c.links, rev) && c.links[rev] == Some(out.error.missing)
        && forall k :: k in c.links && Less(k, rev) ==> !Dangling(c.links, k)
  {
    MultipleInitialReported(c);
    MissingCheckPasses(c);
    if c.order != [] {
      var sorted := SortedRevisions(c);
      if FirstMissing(c.links, sorted).Some? {
        FirstMissingIsLeast(c.links, sorted);
      }
    }
  }

  /** Check 3 passes exactly when the chain has no cycle. */
  lemma CyclesCheckPasses(c: Chain)
    requires c.WellFormed()
    ensures Acyclic(c.links) ==> CyclesCheck(c) == DuplicatesCheck(c)
    ensures !Acyclic(c.links) ==> CyclesCheck(c).Fail? && CyclesCheck(c).error.CircularDependencyError?
  {
    if !Acyclic(c.links) {
      var cycle :| ClosedCycle(c.links, cycle);
      CycleFromComplete(c.links, cycle, cycle[0]);
      assert cycle[0] in c.order;
    }
  }

  /**
   * With checks 1 and 2 passed, check 3 fires exactly when the chain has a
   * cycle. The cycle it reports is genuine, no longer than the number of
   * revisions plus one, and is the one `check_cycle` finds from the first
   * revision, in insertion order, from which it finds any.
   */
  lemma CircularDependencyReported(c: Chain)
    requires c.WellFormed() && AtMostOneInitial(c.links) && DownRevisionsResolve(c.links)
    ensures var out := ValidationOutcome(c);
      out.Fail? && out.error.CircularDependencyError? <==> !Acyclic(c.links)
    ensures var out := ValidationOutcome(c);
      out.Fail? && out.error.CircularDependencyError? ==>
        var cycle := out.error.cycle;
        && ClosedCycle(c.links, cycle) && |cycle| <= |c.links| + 1
        && exists i :: 0 <= i < |c.order| && CycleFrom(c.links, c.order[i]) == Some(cycle) &&
                       forall j :: 0 <= j < i ==> CycleFrom(c.links, c.order[j]).None?
  {
    MultipleInitialReported(c);
    MissingCheckPasses(c);
    CyclesCheckPasses(c);
    if c.order != [] && FirstCycle(c.links, c.order).Some? {
      FirstCycleIsFirst(c.links, c.order);
    }
  }

  /**
   * With checks 1 to 3 passed, check 4 fires exactly when two revisions share
   * a down-revision. It lists every revision that shares the reported one,
   * ascending, and no revision sorting before the first of them shares its
   * own down-revision with another.
   */
  lemma DuplicateDownRevisionReported(c: Chain)
    requires c.WellFormed() && AtMostOneInitial(c.links) && DownRevisionsResolve(c.links) && Acyclic(c.links)
    ensures var out := ValidationOutcome(c);
      out.Fail? && out.error.DuplicateDownRevisionError? <==> !DownRevisionsUnique(c.links)
    ensures var out := ValidationOutcome(c);
      out.Fail? && out.error.DuplicateDownRevisionError? ==>
        var revs := out.error.revisions;
        && out.error.shared.Some?
        && |revs| > 1 && StrictlyAscending(revs)
        && (forall k :: k in revs <==> k in c.links && c.links[k] == out.error.shared)
        && (forall k, k' :: (k in c.links && k' in c.links && k != k' && c.links[k].Some? &&
              c.links[k] == c.links[k']) ==> !Less(k, revs[0]))
    ensures ValidationOutcome(c) == Pass <==> DownRevisionsUnique(c.links)
  {
    MultipleInitialReported(c);
    MissingCheckPasses(c);
    CyclesCheckPasses(c);
    if c.order != [] {
      assert ValidationOutcome(c) == DuplicatesCheck(c);
      DuplicateStageSpec(c);
    } else {
      assert DownRevisionsUnique(c.links);
    }
  }

  /** Validation passes exactly on chains that have all four properties. */
  lemma ValidationPassesIff(c: Chain)
    requires c.WellFormed()
    ensures ValidationOutcome(c) == Pass <==> IsValidChain(c.links)
  {
    MultipleInitialReported(c);
    if AtMostOneInitial(c.links) {
      MissingDownRevisionReported(c);
      if DownRevisionsResolve(c.links) {
        CircularDependencyReported(c);
        if Acyclic(c.links) {
          DuplicateDownRevisionReported(c);
        }
      }
    }
  }

  /** Every error the validator raises is an `InvalidMigrationChainError`. */
  lemma ValidationErrorsAreChainErrors(c: Chain)
    requires c.WellFormed()
    ensures ValidationOutcome(c).Fail? ==> ValidationOutcome(c).error.IsInvalidMigrationChain()
  {
  }

  /** A walk that ends without a cycle, over down-revisions that all resolve, reaches an initial migration. */
  lemma {:induction false} WalkReachesInitial(links: Links, path: seq<Revision>, current: Option<Revision>)
    requires DownRevisionsResolve(links) && forall r :: r in links ==> links[r] != Some("")
    requires current.Some? && current.value in links
    requires Walk(links, path, current).None?
    ensures exists r :: r in links && links[r] == None
    decreases |links.Keys - Elems(path)|, if current.Some? then 1 else 0
  {
    var x := current.value;
    UnvisitedShrinks(links, path, x);
    if links[x].Some? {
      assert !Dangling(links, x);
      WalkReachesInitial(links, path + [x], links[x]);
    }
  }

  /**
   * A non-empty chain that passes validation, and whose down-revisions are
   * never the empty string (as reading the files ensures), has exactly one
   * initial migration.
   */
  lemma ValidChainHasOneInitial(c: Chain)
    requires c.WellFormed() && c.order != []
    requires forall r :: r in c.links ==> c.links[r] != Some("")
    requires ValidationOutcome(c) == Pass
    ensures exists r :: r in c.links && c.links[r] == None
    ensures forall a, b :: a in c.links && b in c.links && c.links[a] == None && c.links[b] == None ==> a == b
  {
    ValidationPassesIff(c);
    var start := c.order[0];
    if CycleFrom(c.links, start).Some? {
      CycleFromSound(c.links, start);
    }
    WalkReachesInitial(c.links, [], Some(start));
  }
}
