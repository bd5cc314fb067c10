// The filter combinators the two search builders use: a filter is a
// conjunction of clauses over an entity, a missing clause stands for "no
// restriction", `Where` starts a filter and `And` extends one.

module Specification {
  import opened Wrappers

  /** A composed filter: the conjunction of its clauses; the empty one restricts nothing. */
  type Filter<-T> = seq<T -> bool>

  predicate Holds<T>(f: Filter<T>, x: T) {
    forall i :: 0 <= i < |f| ==> f[i](x)
  }

  /** `Specification.where(c)`: a null clause gives the filter that restricts nothing. */
  function Where<T>(c: Option<T -> bool>): Filter<T> {
    if c.Some? then [c.value] else []
  }

  /** `f.and(c)`: a null clause leaves the filter as it is. */
  function And<T>(f: Filter<T>, c: Option<T -> bool>): Filter<T> {
    if c.Some? then f + [c.value] else f
  }

  /** `where` makes a present clause the whole filter. */
  lemma HoldsWhere<T>(c: Option<T -> bool>, x: T)
    ensures Holds(Where(c), x) <==> (c.Some? ==> c.value(x))
  {
    if c.Some? {
      assert Where(c)[0] == c.value;
    }
  }

  /** `and` is conjunction: the extended filter holds iff the old one and the new clause both do. */
  lemma HoldsAnd<T>(f: Filter<T>, c: Option<T -> bool>, x: T)
    ensures Holds(And(f, c), x) <==> Holds(f, x) && (c.Some? ==> c.value(x))
  {
    if c.Some? {
      var g := And(f, c);
      assert g[|f|] == c.value;
      assert forall i :: 0 <= i < |f| ==> g[i] == f[i];
    }
  }
}
