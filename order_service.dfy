// The order service. OrderRules says what each call does to a store value
// and what it returns, and proves what the guards guarantee; OrderService
// is the service object, whose methods run the same guards against the
// shared repository and are proved to do what OrderRules says.

module OrderRules {
  import opened Wrappers
  import opened Errors
  import opened Domain
  import opened Store
  import OrderSpecification

  /** `checkExistMovie`: fails NOT_FOUND unless a movie has this id. */
  function CheckExistMovie(db: Db, movieId: Id): (e: Option<Error>)
    ensures e.None? <==> movieId in db.movies
    ensures e.Some? ==> e.value == CinemaError(NotFound)
  {
    if movieId !in db.movies then Some(CinemaError(NotFound)) else None
  }

  /** `checkParticipants`: fails INTERNAL_ERROR unless the count is positive. */
  function CheckParticipants(participants: Int32): (e: Option<Error>)
    ensures e.None? <==> participants > 0
    ensures e.Some? ==> e.value == CinemaError(InternalError)
  {
    if participants <= 0 then Some(CinemaError(InternalError)) else None
  }

  /** `findById`: the stored order, or NOT_FOUND. */
  function FindById(db: Db, id: Id): (r: Result<Order, Error>)
    ensures r.Ok? <==> id in db.orders
    ensures r.Ok? ==> r.value == db.orders[id]
    ensures r.Err? ==> r.error == CinemaError(NotFound)
  {
    if id in db.orders then Ok(db.orders[id]) else Err(CinemaError(NotFound))
  }

  /** `searchAll` without paging: the stored orders that pass the filter built from `criteria`. */
  function SearchAll(db: Db, criteria: OrderDto): (r: map<Id, Order>)
    ensures forall k :: k in r <==> k in db.orders && OrderSpecification.Matches(criteria, db.orders[k])
    ensures forall k :: k in r ==> r[k] == db.orders[k]
  {
    map k | k in db.orders && OrderSpecification.Matches(criteria, db.orders[k]) :: db.orders[k]
  }

  /** Criteria with every field null find every stored order. */
  lemma SearchAllEmptyCriteria(db: Db, criteria: OrderDto)
    requires criteria.movieId.None? && criteria.orderTime.None? && criteria.participants.None?
    ensures SearchAll(db, criteria) == db.orders
  {
    forall k | k in db.orders
      ensures OrderSpecification.Matches(criteria, db.orders[k])
    {
      OrderSpecification.EmptyCriteriaMatchAll(criteria, db.orders[k]);
    }
  }

  /** Narrower criteria find a subset of what wider criteria find. */
  lemma SearchAllMonotone(db: Db, narrow: OrderDto, wide: OrderDto)
    requires OrderSpecification.Narrows(narrow, wide)
    ensures SearchAll(db, narrow).Keys <= SearchAll(db, wide).Keys
  {
    forall k | k in SearchAll(db, narrow)
      ensures k in SearchAll(db, wide)
    {
      OrderSpecification.MatchesMonotone(narrow, wide, db.orders[k]);
    }
  }

  /** `create`: both movie id and participants must be given, the movie must exist, the count must be positive. */
  function Create(db: Db, dto: OrderDto, today: Date): (out: Outcome<Order>)
    ensures out.result.Err? ==> out.db == db
    ensures out.result == Err(CinemaError(InternalError)) <==>
      dto.movieId.None? || dto.participants.None? || (dto.movieId.value in db.movies && dto.participants.value <= 0)
    ensures out.result == Err(CinemaError(NotFound)) <==>
      dto.movieId.Some? && dto.participants.Some? && dto.movieId.value !in db.movies
    ensures out.result.Ok? <==>
      dto.movieId.Some? && dto.participants.Some? && dto.movieId.value in db.movies && dto.participants.value > 0
    ensures out.result.Ok? ==>
      var o := out.result.value;
      && Some(o.movieId) == dto.movieId && Some(o.participants) == dto.participants && o.orderTime == today
      && o.id == db.nextOrderId
      && out.db == db.(orders := db.orders[o.id := o], nextOrderId := db.nextOrderId + 1)
  {
    if dto.movieId.Some? && dto.participants.Some? then
      var missing := CheckExistMovie(db, dto.movieId.value);
      var invalid := CheckParticipants(dto.participants.value);
      if missing.Some? then Outcome(Err(missing.value), db)
      else if invalid.Some? then Outcome(Err(invalid.value), db)
      else
        var o := Order(db.nextOrderId, dto.movieId.value, today, dto.participants.value);
        Outcome(Ok(o), db.(orders := db.orders[o.id := o], nextOrderId := db.nextOrderId + 1))
    else
      Outcome(Err(CinemaError(InternalError)), db)
  }

  /** The update merger: each present field replaces the stored one; absent fields and the id stay. */
  function Merge(current: Order, patch: OrderDto): (o: Order)
    ensures o.id == current.id
    ensures o.movieId == (if patch.movieId.Some? then patch.movieId.value else current.movieId)
    ensures o.orderTime == (if patch.orderTime.Some? then patch.orderTime.value else current.orderTime)
    ensures o.participants == (if patch.participants.Some? then patch.participants.value else current.participants)
  {
    current.(movieId := patch.movieId.GetOr(current.movieId),
             orderTime := patch.orderTime.GetOr(current.orderTime),
             participants := patch.participants.GetOr(current.participants))
  }

  /** A patch without fields leaves the order as it is. */
  lemma MergeEmptyPatch(current: Order, patch: OrderDto)
    requires patch.movieId.None? && patch.orderTime.None? && patch.participants.None?
    ensures Merge(current, patch) == current
  {
  }

  /**
   * `update`: the order must exist; a given movie id must name a movie; a
   * given count must be positive; a given order time is taken as it is.
   */
  function Update(db: Db, dto: OrderDto): (out: Outcome<Order>)
    ensures out.result.Err? ==> out.db == db
    ensures out.result == Err(MissingId) <==> dto.id.None?
    ensures out.result == Err(CinemaError(NotFound)) <==>
      dto.id.Some? && (dto.id.value !in db.orders || (dto.movieId.Some? && dto.movieId.value !in db.movies))
    ensures out.result == Err(CinemaError(InternalError)) <==>
      && dto.id.Some? && dto.id.value in db.orders
      && (dto.movieId.Some? ==> dto.movieId.value in db.movies)
      && dto.participants.Some? && dto.participants.value <= 0
    ensures out.result.Ok? <==>
      && dto.id.Some? && dto.id.value in db.orders
      && (dto.movieId.Some? ==> dto.movieId.value in db.movies)
      && (dto.participants.Some? ==> dto.participants.value > 0)
    ensures out.result.Ok? ==>
      && dto.id.Some? && dto.id.value in db.orders
      && out.result.value == Merge(db.orders[dto.id.value], dto)
      && out.db == db.(orders := db.orders[out.result.value.id := out.result.value])
  {
    if dto.id.None? then Outcome(Err(MissingId), db)
    else if dto.id.value !in db.orders then Outcome(Err(CinemaError(NotFound)), db)
    else
      var missing := if dto.movieId.Some? then CheckExistMovie(db, dto.movieId.value) else None;
      var invalid := if dto.participants.Some? then CheckParticipants(dto.participants.value) else None;
      if missing.Some? then Outcome(Err(missing.value), db)
      else if invalid.Some? then Outcome(Err(invalid.value), db)
      else
        var o := Merge(db.orders[dto.id.value], dto);
        Outcome(Ok(o), db.(orders := db.orders[o.id := o]))
  }

  /** `delete`: NOT_FOUND for an unknown id, otherwise exactly that order goes. */
  function Delete(db: Db, id: Id): (out: Outcome<()>)
    ensures out.result.Err? <==> id !in db.orders
    ensures out.result.Err? ==> out.result.error == CinemaError(NotFound) && out.db == db
    ensures out.result.Ok? ==> out.db == db.(orders := db.orders - {id})
  {
    if id !in db.orders then Outcome(Err(CinemaError(NotFound)), db)
    else Outcome(Ok(()), db.(orders := db.orders - {id}))
  }

  /** A created order is new: its id was not in use, and nothing else in the store changes. */
  lemma CreateAddsOneOrder(db: Db, dto: OrderDto, today: Date)
    requires Valid(db)
    requires Create(db, dto, today).result.Ok?
    ensures var out := Create(db, dto, today); var o := out.result.value;
      && o.id !in db.orders
      && out.db.orders.Keys == db.orders.Keys + {o.id}
      && (forall k :: k in db.orders ==> out.db.orders[k] == db.orders[k])
      && out.db.movies == db.movies
  {
  }

  /** Creating an order and then finding it by its new id gives back what was given, dated today. */
  lemma CreateThenFind(db: Db, dto: OrderDto, today: Date)
    requires Create(db, dto, today).result.Ok?
    ensures var out := Create(db, dto, today); var r := FindById(out.db, out.result.value.id);
      && r.Ok? && Some(r.value.movieId) == dto.movieId && Some(r.value.participants) == dto.participants
      && r.value.orderTime == today
  {
  }

  /** An update naming only the id succeeds and changes nothing. */
  lemma UpdateIdOnlyIsNoop(db: Db, id: Id)
    requires KeysAreIds(db) && id in db.orders
    ensures Update(db, OrderDto(Some(id), None, None, None)) == Outcome(Ok(db.orders[id]), db)
  {
    MergeEmptyPatch(db.orders[id], OrderDto(Some(id), None, None, None));
    assert db.orders[id := db.orders[id]] == db.orders;
  }

  lemma CreatePreservesValid(db: Db, dto: OrderDto, today: Date)
    requires Valid(db)
    ensures Valid(Create(db, dto, today).db)
  {
  }

  lemma UpdatePreservesValid(db: Db, dto: OrderDto)
    requires Valid(db)
    ensures Valid(Update(db, dto).db)
  {
    var out := Update(db, dto);
    if out.result.Ok? {
      var o := out.result.value;
      assert o.id == dto.id.value;
      assert o.movieId in db.movies;
      assert o.participants > 0;
    }
  }

  lemma DeletePreservesValid(db: Db, id: Id)
    requires Valid(db)
    ensures Valid(Delete(db, id).db)
  {
  }
}

module OrderService {
  import opened Wrappers
  import opened Errors
  import opened Domain
  import opened Store
  import OrderRules

  /** The order service: it changes the store only through the shared repository. */
  class OrderServiceI {
    const repository: Database

    constructor (repository: Database)
      ensures this.repository == repository
    {
      this.repository := repository;
    }

    method FindById(id: Id) returns (r: Result<Order, Error>)
      ensures r == OrderRules.FindById(repository.State(), id)
    {
      if id !in repository.orders {
        return Err(CinemaError(NotFound));
      }
      r := Ok(repository.orders[id]);
    }

    method SearchAll(criteria: OrderDto) returns (r: map<Id, Order>)
      ensures r == OrderRules.SearchAll(repository.State(), criteria)
    {
      r := OrderRules.SearchAll(repository.State(), criteria);
    }

    /** `create`, with `today` standing for `LocalDate.now()`. */
    method Create(dto: OrderDto, today: Date) returns (r: Result<Order, Error>)
      modifies repository
      ensures var out := OrderRules.Create(old(repository.State()), dto, today);
        r == out.result && repository.State() == out.db
      ensures Valid(old(repository.State())) ==> Valid(repository.State())
    {
      ghost var before := repository.State();
      if Valid(before) {
        OrderRules.CreatePreservesValid(before, dto, today);
      }
      if dto.movieId.Some? && dto.participants.Some? {
        var missing := OrderRules.CheckExistMovie(repository.State(), dto.movieId.value);
        if missing.Some? {
          return Err(missing.value);
        }
        var invalid := OrderRules.CheckParticipants(dto.participants.value);
        if invalid.Some? {
          return Err(invalid.value);
        }
        var newOrder := Order(0, dto.movieId.value, today, dto.participants.value);
        var saved := repository.InsertOrder(newOrder);
        r := Ok(saved);
      } else {
        r := Err(CinemaError(InternalError));
      }
    }

    /** `update`: the patch is applied to a copy of the row, which is written back only if every guard passes. */
    method Update(dto: OrderDto) returns (r: Result<Order, Error>)
      modifies repository
      ensures var out := OrderRules.Update(old(repository.State()), dto);
        r == out.result && repository.State() == out.db
      ensures Valid(old(repository.State())) ==> Valid(repository.State())
    {
      ghost var before := repository.State();
      if Valid(before) {
        OrderRules.UpdatePreservesValid(before, dto);
      }
      if dto.id.None? {
        return Err(MissingId);
      }
      if dto.id.value !in repository.orders {
        return Err(CinemaError(NotFound));
      }
      var updateOrder := repository.orders[dto.id.value];
      if dto.movieId.Some? {
        var missing := OrderRules.CheckExistMovie(repository.State(), dto.movieId.value);
        if missing.Some? {
          return Err(missing.value);
        }
        updateOrder := updateOrder.(movieId := dto.movieId.value);
      }
      if dto.participants.Some? {
        var invalid := OrderRules.CheckParticipants(dto.participants.value);
        if invalid.Some? {
          return Err(invalid.value);
        }
        updateOrder := updateOrder.(participants := dto.participants.value);
      }
      if dto.orderTime.Some? {
        updateOrder := updateOrder.(orderTime := dto.orderTime.value);
      }
      repository.WriteOrder(updateOrder);
      r := Ok(updateOrder);
    }

    method Delete(id: Id) returns (r: Result<(), Error>)
      modifies repository
      ensures var out := OrderRules.Delete(old(repository.State()), id);
        r == out.result && repository.State() == out.db
      ensures Valid(old(repository.State())) ==> Valid(repository.State())
    {
      ghost var before := repository.State();
      if Valid(before) {
        OrderRules.DeletePreservesValid(before, id);
      }
      if id !in repository.orders {
        return Err(CinemaError(NotFound));
      }
      repository.DeleteOrderById(id);
      r := Ok(());
    }
  }
}
