// The order search filter: each non-null field of the criteria contributes
// an equality clause on the same column (movie id, order time,
// participants), a null field contributes none, and the clauses are joined
// by AND.

module OrderSpecification {
  import opened Wrappers
  import opened Domain
  import opened Specification

  type OrderFilter = Filter<Order>

  /** `equalMovieid`: no clause for a null movie id, otherwise equality on the movie id. */
  function EqualMovieId(movieId: Option<Id>): (c: Option<Order -> bool>)
    ensures c.Some? <==> movieId.Some?
    ensures c.Some? ==> forall o: Order :: c.value(o) <==> o.movieId == movieId.value
  {
    if movieId.None? then None else Some((o: Order) => o.movieId == movieId.value)
  }

  /** `equalOrderTime`: no clause for a null order time, otherwise equality on the order time. */
  function EqualOrderTime(orderTime: Option<Date>): (c: Option<Order -> bool>)
    ensures c.Some? <==> orderTime.Some?
    ensures c.Some? ==> forall o: Order :: c.value(o) <==> o.orderTime == orderTime.value
  {
    if orderTime.None? then None else Some((o: Order) => o.orderTime == orderTime.value)
  }

  /** `equalParticipants`: no clause for a null count, otherwise equality on the participants. */
  function EqualParticipants(participants: Option<Int32>): (c: Option<Order -> bool>)
    ensures c.Some? <==> participants.Some?
    ensures c.Some? ==> forall o: Order :: c.value(o) <==> o.participants == participants.value
  {
    if participants.None? then None else Some((o: Order) => o.participants == participants.value)
  }

  /** `orderSpecification`: the filter built from search criteria, one clause per non-null field (MatchesIff says what it admits). */
  function Build(criteria: OrderDto): (f: OrderFilter)
    ensures |f| == (if criteria.movieId.Some? then 1 else 0) + (if criteria.orderTime.Some? then 1 else 0)
                 + (if criteria.participants.Some? then 1 else 0)
  {
    And(And(Where(EqualMovieId(criteria.movieId)), EqualOrderTime(criteria.orderTime)), EqualParticipants(criteria.participants))
  }

  /** The order passes the filter built from `criteria`. */
  predicate Matches(criteria: OrderDto, o: Order) {
    Holds(Build(criteria), o)
  }

  /** An order matches iff every present field equals the stored one; the id is ignored. */
  lemma MatchesIff(criteria: OrderDto, o: Order)
    ensures Matches(criteria, o) <==>
      && (criteria.movieId.Some? ==> o.movieId == criteria.movieId.value)
      && (criteria.orderTime.Some? ==> o.orderTime == criteria.orderTime.value)
      && (criteria.participants.Some? ==> o.participants == criteria.participants.value)
  {
    var f0 := Where(EqualMovieId(criteria.movieId));
    var f1 := And(f0, EqualOrderTime(criteria.orderTime));
    HoldsWhere(EqualMovieId(criteria.movieId), o);
    HoldsAnd(f0, EqualOrderTime(criteria.orderTime), o);
    HoldsAnd(f1, EqualParticipants(criteria.participants), o);
  }

  /** Criteria with every field null match every order. */
  lemma EmptyCriteriaMatchAll(criteria: OrderDto, o: Order)
    requires criteria.movieId.None? && criteria.orderTime.None? && criteria.participants.None?
    ensures Matches(criteria, o)
  {
    MatchesIff(criteria, o);
  }

  /** `narrow` keeps every field `wide` sets, with the same value, and may set more. */
  predicate Narrows(narrow: OrderDto, wide: OrderDto) {
    && (wide.movieId.Some? ==> narrow.movieId == wide.movieId)
    && (wide.orderTime.Some? ==> narrow.orderTime == wide.orderTime)
    && (wide.participants.Some? ==> narrow.participants == wide.participants)
  }

  /** Adding a field to the criteria never lets more orders through. */
  lemma MatchesMonotone(narrow: OrderDto, wide: OrderDto, o: Order)
    requires Narrows(narrow, wide)
    ensures Matches(narrow, o) ==> Matches(wide, o)
  {
    MatchesIff(narrow, o);
    MatchesIff(wide, o);
  }
}
