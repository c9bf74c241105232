/**
 * The migrations dictionary `Dict[str, Optional[str]]`: each revision maps to
 * its down-revision, `None` marking an initial migration. A Python dict
 * remembers the order in which keys were inserted, and that order is
 * observable (the cycle scan walks it), so it is kept explicitly.
 */
module Chains {
  import opened Wrappers
  import opened Exceptions
  import opened Seqs

  type Links = map<Revision, Option<Revision>>

  datatype Chain = Chain(order: seq<Revision>, links: Links)
  {
    /** The keys in insertion order: each once, and exactly the keys of `links`. */
    ghost predicate WellFormed()
    {
      Distinct(order) && forall r :: r in links <==> r in order
    }
  }

  /** The empty dictionary `{}`. */
  const EmptyChain := Chain([], map[])

  /** `migrations.get(r)`: `None` both for an initial migration and for a missing key. */
  function Get(links: Links, r: Revision): Option<Revision>
  {
    if r in links then links[r] else None
  }

  /** Python truthiness of an optional string: present and non-empty. */
  predicate Truthy(down: Option<Revision>)
  {
    down.Some? && down.value != ""
  }
}
