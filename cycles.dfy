/**
 * `check_cycle`, the walk nested in `validate_migration_chain`: follow
 * down-revisions from a start revision, remembering the path, until the
 * walk falls off the chain (`None`) or meets a revision already on the path.
 */
module CycleCheck {
  import opened Wrappers
  import opened Exceptions
  import opened Seqs
  import opened Chains

  /** The revisions on a path, as a set. */
  function Elems(path: seq<Revision>): set<Revision>
  {
    set x | x in path
  }

  /** Each element's down-revision is the next element. */
  predicate Linked(links: Links, s: seq<Revision>)
  {
    forall i :: 0 <= i < |s| - 1 ==> s[i] in links && links[s[i]] == Some(s[i + 1])
  }

  /**
   * A cycle of down-revision links as the checker reports it: it starts and
   * ends with the same revision, repeats nothing else, and each element's
   * down-revision is the next element.
   */
  predicate ClosedCycle(links: Links, cycle: seq<Revision>)
  {
    && |cycle| >= 2
    && cycle[0] == cycle[|cycle| - 1]
    && Distinct(cycle[..|cycle| - 1])
    && Linked(links, cycle)
  }

  /** No sequence of revisions forms a cycle. */
  ghost predicate Acyclic(links: Links)
  {
    forall cycle :: !ClosedCycle(links, cycle)
  }

  /** Appending `x` to the path removes one unvisited key, or none when `x` is not a key. */
  lemma UnvisitedShrinks(links: Links, path: seq<Revision>, x: Revision)
    requires x !in path
    ensures Elems(path + [x]) == Elems(path) + {x}
    ensures x in links ==> |links.Keys - Elems(path + [x])| < |links.Keys - Elems(path)|
    ensures x !in links ==> links.Keys - Elems(path + [x]) == links.Keys - Elems(path)
  {
    var before, after := links.Keys - Elems(path), links.Keys - Elems(path + [x]);
    assert Elems(path + [x]) == Elems(path) + {x};
    if x in links {
      assert after == before - {x};
    }
  }

  /**
   * The rest of the walk, given the path so far and the revision `current`
   * about to be visited: the cycle found, or `None` once `current` is `None`.
   */
  function Walk(links: Links, path: seq<Revision>, current: Option<Revision>): Option<seq<Revision>>
    decreases |links.Keys - Elems(path)|, if current.Some? then 1 else 0
  {
    match current
    case None => None
    case Some(x) =>
      if x in path then Some(path[IndexOf(path, x)..] + [x])
      else
        UnvisitedShrinks(links, path, x);
        Walk(links, path + [x], Get(links, x))
  }

  /** `check_cycle(start)`. */
  function CycleFrom(links: Links, start: Revision): Option<seq<Revision>>
  {
    Walk(links, [], Some(start))
  }

  method CheckCycle(links: Links, start: Revision) returns (cycle: Option<seq<Revision>>)
    ensures cycle == CycleFrom(links, start)
  {
    var path: seq<Revision> := [];
    var current: Option<Revision> := Some(start);
    while current.Some?
      invariant Walk(links, path, current) == CycleFrom(links, start)
      invariant Distinct(path)
      invariant current.Some? ==> forall y :: y in path ==> y in links
      invariant |path| <= |links| + 1
      decreases |links.Keys - Elems(path)|, if current.Some? then 1 else 0
    {
      var x := current.value;
      if x in path {
        var cycleStart := IndexOf(path, x);
        return Some(path[cycleStart..] + [x]);
      }
      UnvisitedShrinks(links, path, x);
      DistinctLengthBound(path, links.Keys);
      path := path + [x];
      current := Get(links, x);
    }
    return None;
  }

  /** Meeting `x` again on a linked path closes a genuine cycle. */
  lemma ClosingIsCycle(links: Links, path: seq<Revision>, x: Revision)
    requires Distinct(path) && Linked(links, path)
    requires x in path && Get(links, path[|path| - 1]) == Some(x)
    ensures ClosedCycle(links, path[IndexOf(path, x)..] + [x])
  {
    var i := IndexOf(path, x);
    var cycle := path[i..] + [x];
    assert cycle[..|cycle| - 1] == path[i..];
    var last := path[|path| - 1];
    assert last in links && links[last] == Some(x);
    forall j | 0 <= j < |cycle| - 1 ensures cycle[j] in links && links[cycle[j]] == Some(cycle[j + 1]) {
      if j < |cycle| - 2 {
        assert cycle[j] == path[i + j] && cycle[j + 1] == path[i + j + 1];
      }
    }
  }

  /** Visiting a new `x` that the path's last revision links to keeps the path linked and distinct. */
  lemma ExtendLinked(links: Links, path: seq<Revision>, x: Revision)
    requires Distinct(path) && Linked(links, path) && x !in path
    requires |path| > 0 ==> Some(x) == Get(links, path[|path| - 1])
    ensures Distinct(path + [x]) && Linked(links, path + [x])
  {
    var path' := path + [x];
    forall j | 0 <= j < |path'| - 1 ensures path'[j] in links && links[path'[j]] == Some(path'[j + 1]) {
      if j < |path| - 1 {
        assert path'[j] == path[j] && path'[j + 1] == path[j + 1];
      }
    }
  }

  /** Every cycle the walk reports is a genuine cycle of the chain. */
  lemma {:induction false} WalkSound(links: Links, path: seq<Revision>, current: Option<Revision>)
    requires Distinct(path) && Linked(links, path)
    requires |path| > 0 ==> current == Get(links, path[|path| - 1])
    ensures Walk(links, path, current).Some? ==> ClosedCycle(links, Walk(links, path, current).value)
    decreases |links.Keys - Elems(path)|, if current.Some? then 1 else 0
  {
    match current
    case None =>
    case Some(x) =>
      if x in path {
        ClosingIsCycle(links, path, x);
      } else {
        UnvisitedShrinks(links, path, x);
        ExtendLinked(links, path, x);
        WalkSound(links, path + [x], Get(links, x));
      }
  }

  /** A cycle reported by `check_cycle` is genuine and visits at most every key once. */
  lemma CycleFromSound(links: Links, start: Revision)
    requires CycleFrom(links, start).Some?
    ensures ClosedCycle(links, CycleFrom(links, start).value)
    ensures |CycleFrom(links, start).value| <= |links| + 1
  {
    WalkSound(links, [], Some(start));
    var cycle := CycleFrom(links, start).value;
    var body := cycle[..|cycle| - 1];
    forall y | y in body ensures y in links {
      var j :| 0 <= j < |body| && body[j] == y;
      assert cycle[j] == y;
    }
    DistinctLengthBound(body, links.Keys);
  }

  /** A walk that is on a cycle never falls off the chain, so it reports a cycle. */
  lemma {:induction false} WalkFindsCycle(links: Links, cycle: seq<Revision>, path: seq<Revision>, current: Option<Revision>)
    requires ClosedCycle(links, cycle)
    requires current.Some? && current.value in cycle
    ensures Walk(links, path, current).Some?
    decreases |links.Keys - Elems(path)|, if current.Some? then 1 else 0
  {
    var x := current.value;
    if x !in path {
      var j :| 0 <= j < |cycle| && cycle[j] == x;
      var k := if j < |cycle| - 1 then j else 0;
      assert cycle[k] == x;
      assert x in links && links[x] == Some(cycle[k + 1]);
      UnvisitedShrinks(links, path, x);
      WalkFindsCycle(links, cycle, path + [x], Get(links, x));
    }
  }

  /** `check_cycle` started on any revision of a cycle reports a cycle. */
  lemma CycleFromComplete(links: Links, cycle: seq<Revision>, x: Revision)
    requires ClosedCycle(links, cycle) && x in cycle
    ensures CycleFrom(links, x).Some?
  {
    WalkFindsCycle(links, cycle, [], Some(x));
  }
}
