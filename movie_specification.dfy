// The movie search filter: each non-null field of the criteria contributes
// one clause (a substring match on the name, an equality on cost and on
// release date), a null field contributes none, and the clauses are joined
// by AND.

module MovieSpecification {
  import opened Wrappers
  import opened Domain
  import opened Specification

  /** `p` is a prefix of `s`. */
  predicate IsPrefix(p: string, s: string) {
    |p| <= |s| && p == s[..|p|]
  }

  /** `s` contains `sub` somewhere: the SQL match `s LIKE '%sub%'` for a `sub` free of wildcards. */
  predicate Contains(s: string, sub: string)
    decreases |s|
  {
    IsPrefix(sub, s) || (|s| > 0 && Contains(s[1..], sub))
  }

  /** Contains is exactly "`s` is some text, then `sub`, then some text". */
  lemma {:induction false} ContainsIffSplit(s: string, sub: string)
    ensures Contains(s, sub) <==> exists pre: string, post: string :: s == pre + sub + post
    decreases |s|
  {
    if Contains(s, sub) {
      if IsPrefix(sub, s) {
        assert s == [] + sub + s[|sub|..];
      } else {
        ContainsIffSplit(s[1..], sub);
        var pre, post :| s[1..] == pre + sub + post;
        assert s == ([s[0]] + pre) + sub + post;
      }
    }
    if exists pre: string, post: string :: s == pre + sub + post {
      var pre, post :| s == pre + sub + post;
      if pre == [] {
        assert s[..|sub|] == sub;
      } else {
        assert s[1..] == pre[1..] + sub + post;
        ContainsIffSplit(s[1..], sub);
      }
    }
  }

  /** Every text contains the empty text, so the pattern `%%` matches any name. */
  lemma ContainsEmpty(s: string)
    ensures Contains(s, "")
  {
  }

  type MovieFilter = Filter<Movie>

  /** `likeName`: no clause for a null name, otherwise a substring match on the name. */
  function LikeName(name: Option<string>): (c: Option<Movie -> bool>)
    ensures c.Some? <==> name.Some?
    ensures c.Some? ==> forall m: Movie :: c.value(m) <==> Contains(m.name, name.value)
  {
    if name.None? then None else Some((m: Movie) => Contains(m.name, name.value))
  }

  /** `equalCost`: no clause for a null cost, otherwise equality on the cost. */
  function EqualCost(cost: Option<Int32>): (c: Option<Movie -> bool>)
    ensures c.Some? <==> cost.Some?
    ensures c.Some? ==> forall m: Movie :: c.value(m) <==> m.cost == cost.value
  {
    if cost.None? then None else Some((m: Movie) => m.cost == cost.value)
  }

  /** `equalReleaseDate`: no clause for a null date, otherwise equality on the release date. */
  function EqualReleaseDate(releaseDate: Option<Date>): (c: Option<Movie -> bool>)
    ensures c.Some? <==> releaseDate.Some?
    ensures c.Some? ==> forall m: Movie :: c.value(m) <==> m.releaseDate == releaseDate.value
  {
    if releaseDate.None? then None else Some((m: Movie) => m.releaseDate == releaseDate.value)
  }

  /** `movieSpecification`: the filter built from search criteria, one clause per non-null field (MatchesIff says what it admits). */
  function Build(criteria: MovieDto): (f: MovieFilter)
    ensures |f| == (if criteria.name.Some? then 1 else 0) + (if criteria.cost.Some? then 1 else 0)
                 + (if criteria.releaseDate.Some? then 1 else 0)
  {
    And(And(Where(LikeName(criteria.name)), EqualCost(criteria.cost)), EqualReleaseDate(criteria.releaseDate))
  }

  /** The movie passes the filter built from `criteria`. */
  predicate Matches(criteria: MovieDto, m: Movie) {
    Holds(Build(criteria), m)
  }

  /** A movie matches iff it satisfies every clause whose field is present; the id is ignored. */
  lemma MatchesIff(criteria: MovieDto, m: Movie)
    ensures Matches(criteria, m) <==>
      && (criteria.name.Some? ==> Contains(m.name, criteria.name.value))
      && (criteria.cost.Some? ==> m.cost == criteria.cost.value)
      && (criteria.releaseDate.Some? ==> m.releaseDate == criteria.releaseDate.value)
  {
    var f0 := Where(LikeName(criteria.name));
    var f1 := And(f0, EqualCost(criteria.cost));
    HoldsWhere(LikeName(criteria.name), m);
    HoldsAnd(f0, EqualCost(criteria.cost), m);
    HoldsAnd(f1, EqualReleaseDate(criteria.releaseDate), m);
  }

  /** Criteria with every field null match every movie. */
  lemma EmptyCriteriaMatchAll(criteria: MovieDto, m: Movie)
    requires criteria.name.None? && criteria.cost.None? && criteria.releaseDate.None?
    ensures Matches(criteria, m)
  {
    MatchesIff(criteria, m);
  }

  /** An empty name constrains nothing: it matches exactly what a null name matches. */
  lemma EmptyNameIsNoConstraint(criteria: MovieDto, m: Movie)
    requires criteria.name == Some("")
    ensures Matches(criteria, m) <==> Matches(criteria.(name := None), m)
  {
    ContainsEmpty(m.name);
    MatchesIff(criteria, m);
    MatchesIff(criteria.(name := None), m);
  }

  /** `narrow` keeps every field `wide` sets, with the same value, and may set more. */
  predicate Narrows(narrow: MovieDto, wide: MovieDto) {
    && (wide.name.Some? ==> narrow.name == wide.name)
    && (wide.cost.Some? ==> narrow.cost == wide.cost)
    && (wide.releaseDate.Some? ==> narrow.releaseDate == wide.releaseDate)
  }

  /** Adding a field to the criteria never lets more movies through. */
  lemma MatchesMonotone(narrow: MovieDto, wide: MovieDto, m: Movie)
    requires Narrows(narrow, wide)
    ensures Matches(narrow, m) ==> Matches(wide, m)
  {
    MatchesIff(narrow, m);
    MatchesIff(wide, m);
  }
}
