// The movie service. MovieRules says what each call does to a store value
// and what it returns, and proves what the guards guarantee; MovieService
// is the service object, whose methods run the same guards against the
// shared repository and are proved to do what MovieRules says.

module MovieRules {
  import opened Wrappers
  import opened Errors
  import opened Domain
  import opened Store
  import MovieSpecification
  import OrderRules

  /** `checkForDuplicate`: fails ALREADY_OCCUPIED when a stored movie already has this name. */
  function CheckForDuplicate(db: Db, name: Option<string>): (e: Option<Error>)
    ensures e.Some? <==> name.Some? && exists k :: k in db.movies && db.movies[k].name == name.value
    ensures e.Some? ==> e.value == CinemaError(AlreadyOccupied)
  {
    if NameTaken(db, name) then Some(CinemaError(AlreadyOccupied)) else None
  }

  /** `checkCost`: fails INTERNAL_ERROR unless the cost is positive. */
  function CheckCost(cost: Int32): (e: Option<Error>)
    ensures e.None? <==> cost > 0
    ensures e.Some? ==> e.value == CinemaError(InternalError)
  {
    if cost <= 0 then Some(CinemaError(InternalError)) else None
  }

  /** `findById`: the stored movie with its orders, or NOT_FOUND. */
  function FindById(db: Db, id: Id): (r: Result<MovieDtoAll, Error>)
    ensures r.Ok? <==> id in db.movies
    ensures r.Ok? ==> r.value.movie == db.movies[id]
    ensures r.Ok? ==> forall k :: k in r.value.orders <==> k in db.orders && db.orders[k].movieId == id
    ensures r.Ok? ==> forall k :: k in r.value.orders ==> r.value.orders[k] == db.orders[k]
    ensures r.Err? ==> r.error == CinemaError(NotFound)
  {
    if id in db.movies then Ok(View(db, id)) else Err(CinemaError(NotFound))
  }

  /** `searchAll` without paging: the stored movies that pass the filter built from `criteria`, with their orders. */
  function SearchAll(db: Db, criteria: MovieDto): (r: map<Id, MovieDtoAll>)
    ensures forall k :: k in r <==> k in db.movies && MovieSpecification.Matches(criteria, db.movies[k])
    ensures forall k :: k in r ==> r[k].movie == db.movies[k] && r[k].orders == OrdersOf(db, k)
  {
    map k | k in db.movies && MovieSpecification.Matches(criteria, db.movies[k]) :: View(db, k)
  }

  /** Criteria with every field null find every stored movie. */
  lemma SearchAllEmptyCriteria(db: Db, criteria: MovieDto)
    requires criteria.name.None? && criteria.cost.None? && criteria.releaseDate.None?
    ensures SearchAll(db, criteria).Keys == db.movies.Keys
  {
    forall k | k in db.movies
      ensures MovieSpecification.Matches(criteria, db.movies[k])
    {
      MovieSpecification.EmptyCriteriaMatchAll(criteria, db.movies[k]);
    }
  }

  /** Narrower criteria find a subset of what wider criteria find. */
  lemma SearchAllMonotone(db: Db, narrow: MovieDto, wide: MovieDto)
    requires MovieSpecification.Narrows(narrow, wide)
    ensures SearchAll(db, narrow).Keys <= SearchAll(db, wide).Keys
  {
    forall k | k in SearchAll(db, narrow)
      ensures k in SearchAll(db, wide)
    {
      MovieSpecification.MatchesMonotone(narrow, wide, db.movies[k]);
    }
  }

  /** The fields of `m` are the ones `dto` gives. */
  predicate CreatedFrom(m: Movie, dto: MovieDto) {
    Some(m.name) == dto.name && Some(m.releaseDate) == dto.releaseDate && Some(m.cost) == dto.cost
  }

  /**
   * `create`: the duplicate check runs first (a null name is never a
   * duplicate), then all three fields must be given, then the cost must be
   * positive.
   */
  function Create(db: Db, dto: MovieDto): (out: Outcome<MovieDtoAll>)
    ensures out.result.Err? ==> out.db == db
    ensures out.result == Err(CinemaError(AlreadyOccupied)) <==> NameTaken(db, dto.name)
    ensures out.result == Err(CinemaError(InternalError)) <==>
      !NameTaken(db, dto.name) &&
      (dto.name.None? || dto.releaseDate.None? || dto.cost.None? || dto.cost.value <= 0)
    ensures out.result.Ok? <==>
      !NameTaken(db, dto.name) && dto.name.Some? && dto.releaseDate.Some? && dto.cost.Some? && dto.cost.value > 0
    ensures out.result.Ok? ==>
      var m := out.result.value.movie;
      && CreatedFrom(m, dto) && m.id == db.nextMovieId
      && out.db == db.(movies := db.movies[m.id := m], nextMovieId := db.nextMovieId + 1)
      && out.result.value.orders == OrdersOf(db, m.id)
  {
    var duplicate := CheckForDuplicate(db, dto.name);
    if duplicate.Some? then Outcome(Err(duplicate.value), db)
    else if dto.name.None? || dto.releaseDate.None? || dto.cost.None? then
      Outcome(Err(CinemaError(InternalError)), db)
    else if CheckCost(dto.cost.value).Some? then Outcome(Err(CheckCost(dto.cost.value).value), db)
    else
      var m := Movie(db.nextMovieId, dto.name.value, dto.releaseDate.value, dto.cost.value);
      var db' := db.(movies := db.movies[m.id := m], nextMovieId := db.nextMovieId + 1);
      Outcome(Ok(View(db', m.id)), db')
  }

  /** The update merger: each present field replaces the stored one; absent fields and the id stay. */
  function Merge(current: Movie, patch: MovieDto): (m: Movie)
    ensures m.id == current.id
    ensures m.name == (if patch.name.Some? then patch.name.value else current.name)
    ensures m.releaseDate == (if patch.releaseDate.Some? then patch.releaseDate.value else current.releaseDate)
    ensures m.cost == (if patch.cost.Some? then patch.cost.value else current.cost)
  {
    current.(name := patch.name.GetOr(current.name),
             releaseDate := patch.releaseDate.GetOr(current.releaseDate),
             cost := patch.cost.GetOr(current.cost))
  }

  /** A patch without fields leaves the movie as it is. */
  lemma MergeEmptyPatch(current: Movie, patch: MovieDto)
    requires patch.name.None? && patch.releaseDate.None? && patch.cost.None?
    ensures Merge(current, patch) == current
  {
  }

  /** The patch renames the movie: it gives a name other than the current one. */
  predicate Renames(current: Movie, patch: MovieDto) {
    patch.name.Some? && patch.name.value != current.name
  }

  /**
   * `update`: the movie must exist; a new name (one that differs from the
   * current name) must be free; a given cost must be positive; a given
   * release date is taken as it is.
   */
  function Update(db: Db, dto: MovieDto): (out: Outcome<MovieDtoAll>)
    ensures out.result.Err? ==> out.db == db
    ensures out.result == Err(MissingId) <==> dto.id.None?
    ensures out.result == Err(CinemaError(NotFound)) <==> dto.id.Some? && dto.id.value !in db.movies
    ensures out.result == Err(CinemaError(AlreadyOccupied)) <==>
      dto.id.Some? && dto.id.value in db.movies && Renames(db.movies[dto.id.value], dto) && NameTaken(db, dto.name)
    ensures out.result == Err(CinemaError(InternalError)) <==>
      && dto.id.Some? && dto.id.value in db.movies
      && !(Renames(db.movies[dto.id.value], dto) && NameTaken(db, dto.name))
      && dto.cost.Some? && dto.cost.value <= 0
    ensures out.result.Ok? ==>
      var m := out.result.value.movie;
      && dto.id.Some? && dto.id.value in db.movies
      && m == Merge(db.movies[dto.id.value], dto)
      && out.db == db.(movies := db.movies[m.id := m])
      && out.result.value.orders == OrdersOf(db, m.id)
  {
    if dto.id.None? then Outcome(Err(MissingId), db)
    else if dto.id.value !in db.movies then Outcome(Err(CinemaError(NotFound)), db)
    else
      var current := db.movies[dto.id.value];
      var duplicate := if Renames(current, dto) then CheckForDuplicate(db, dto.name) else None;
      var invalid := if dto.cost.Some? then CheckCost(dto.cost.value) else None;
      if duplicate.Some? then Outcome(Err(duplicate.value), db)
      else if invalid.Some? then Outcome(Err(invalid.value), db)
      else
        var m := Merge(current, dto);
        var db' := db.(movies := db.movies[m.id := m]);
        Outcome(Ok(View(db', m.id)), db')
  }

  /** `delete`: NOT_FOUND for an unknown id; otherwise the movie goes, and so do the orders that reference it. */
  function Delete(db: Db, id: Id): (out: Outcome<()>)
    ensures out.result.Err? <==> id !in db.movies
    ensures out.result.Err? ==> out.result.error == CinemaError(NotFound) && out.db == db
    ensures out.result.Ok? ==>
      && out.db.movies == db.movies - {id}
      && (forall k :: k in out.db.orders <==> k in db.orders && db.orders[k].movieId != id)
      && (forall k :: k in out.db.orders ==> out.db.orders[k] == db.orders[k])
      && out.db.nextMovieId == db.nextMovieId && out.db.nextOrderId == db.nextOrderId
  {
    if id !in db.movies then Outcome(Err(CinemaError(NotFound)), db)
    else
      var kept := map k | k in db.orders && db.orders[k].movieId != id :: db.orders[k];
      Outcome(Ok(()), db.(movies := db.movies - {id}, orders := kept))
  }

  /** A created movie is new: its id was not in use, it has no orders yet, and nothing else in the store changes. */
  lemma CreateAddsOneMovie(db: Db, dto: MovieDto)
    requires Valid(db)
    requires Create(db, dto).result.Ok?
    ensures var out := Create(db, dto); var m := out.result.value.movie;
      && m.id !in db.movies
      && out.db.movies.Keys == db.movies.Keys + {m.id}
      && (forall k :: k in db.movies ==> out.db.movies[k] == db.movies[k])
      && out.db.orders == db.orders
      && out.result.value.orders == map[]
  {
    var out := Create(db, dto);
    var m := out.result.value.movie;
    assert m.id == db.nextMovieId;
    forall k | k in db.orders
      ensures db.orders[k].movieId != m.id
    {
      assert db.orders[k].movieId in db.movies;
    }
  }

  /** Creating a movie and then finding it by its new id gives back the fields that were given. */
  lemma CreateThenFind(db: Db, dto: MovieDto)
    requires Create(db, dto).result.Ok?
    ensures var out := Create(db, dto); var r := FindById(out.db, out.result.value.movie.id);
      r.Ok? && CreatedFrom(r.value.movie, dto)
  {
  }

  /** Giving the current name again is not a rename, so it never fails ALREADY_OCCUPIED. */
  lemma UpdateSameNameIsNoConflict(db: Db, dto: MovieDto)
    requires dto.id.Some? && dto.id.value in db.movies
    requires dto.name == Some(db.movies[dto.id.value].name)
    ensures Update(db, dto).result != Err(CinemaError(AlreadyOccupied))
  {
  }

  /** An update naming only the id succeeds, returns the movie as stored and changes nothing. */
  lemma UpdateIdOnlyIsNoop(db: Db, id: Id)
    requires KeysAreIds(db) && id in db.movies
    ensures Update(db, MovieDto(Some(id), None, None, None)) == Outcome(Ok(View(db, id)), db)
  {
    MergeEmptyPatch(db.movies[id], MovieDto(Some(id), None, None, None));
    assert db.movies[id := db.movies[id]] == db.movies;
  }

  /** After a movie is deleted, none of the orders that referenced it can be found. */
  lemma DeleteCascades(db: Db, id: Id, orderId: Id)
    requires Delete(db, id).result.Ok?
    requires orderId in db.orders && db.orders[orderId].movieId == id
    ensures OrderRules.FindById(Delete(db, id).db, orderId) == Err(CinemaError(NotFound))
  {
  }

  lemma CreatePreservesValid(db: Db, dto: MovieDto)
    requires Valid(db)
    ensures Valid(Create(db, dto).db)
  {
    var out := Create(db, dto);
    if out.result.Ok? {
      var m := out.result.value.movie;
      assert dto.name.value !in set k | k in db.movies :: db.movies[k].name;
      forall j | j in db.movies
        ensures db.movies[j].name != m.name
      {
        assert db.movies[j].name in set k | k in db.movies :: db.movies[k].name;
      }
    }
  }

  lemma UpdatePreservesValid(db: Db, dto: MovieDto)
    requires Valid(db)
    ensures Valid(Update(db, dto).db)
  {
    var out := Update(db, dto);
    if out.result.Ok? {
      var id := dto.id.value;
      var m := out.result.value.movie;
      assert m.id == id;
      if Renames(db.movies[id], dto) {
        forall j | j in db.movies
          ensures db.movies[j].name != m.name
        {
          assert db.movies[j].name in set k | k in db.movies :: db.movies[k].name;
        }
      }
      assert m.cost > 0;
    }
  }

  lemma DeletePreservesValid(db: Db, id: Id)
    requires Valid(db)
    ensures Valid(Delete(db, id).db)
  {
  }
}

module MovieService {
  import opened Wrappers
  import opened Errors
  import opened Domain
  import opened Store
  import MovieRules

  /** The movie service: it changes the store only through the shared repository. */
  class MovieServiceI {
    const repository: Database

    constructor (repository: Database)
      ensures this.repository == repository
    {
      this.repository := repository;
    }

    method FindById(id: Id) returns (r: Result<MovieDtoAll, Error>)
      ensures r == MovieRules.FindById(repository.State(), id)
    {
      if id !in repository.movies {
        return Err(CinemaError(NotFound));
      }
      r := Ok(View(repository.State(), id));
    }

    method SearchAll(criteria: MovieDto) returns (r: map<Id, MovieDtoAll>)
      ensures r == MovieRules.SearchAll(repository.State(), criteria)
    {
      r := MovieRules.SearchAll(repository.State(), criteria);
    }

    method Create(dto: MovieDto) returns (r: Result<MovieDtoAll, Error>)
      modifies repository
      ensures var out := MovieRules.Create(old(repository.State()), dto);
        r == out.result && repository.State() == out.db
      ensures Valid(old(repository.State())) ==> Valid(repository.State())
    {
      ghost var before := repository.State();
      if Valid(before) {
        MovieRules.CreatePreservesValid(before, dto);
      }
      var duplicate := MovieRules.CheckForDuplicate(repository.State(), dto.name);
      if duplicate.Some? {
        return Err(duplicate.value);
      }
      if dto.name.None? || dto.releaseDate.None? || dto.cost.None? {
        return Err(CinemaError(InternalError));
      }
      var invalid := MovieRules.CheckCost(dto.cost.value);
      if invalid.Some? {
        return Err(invalid.value);
      }
      var newMovie := Movie(0, dto.name.value, dto.releaseDate.value, dto.cost.value);
      var saved := repository.InsertMovie(newMovie);
      r := Ok(View(repository.State(), saved.id));
    }

    /** `update`: the patch is applied to a copy of the row, which is written back only if every guard passes. */
    method Update(dto: MovieDto) returns (r: Result<MovieDtoAll, Error>)
      modifies repository
      ensures var out := MovieRules.Update(old(repository.State()), dto);
        r == out.result && repository.State() == out.db
      ensures Valid(old(repository.State())) ==> Valid(repository.State())
    {
      ghost var before := repository.State();
      if Valid(before) {
        MovieRules.UpdatePreservesValid(before, dto);
      }
      if dto.id.None? {
        return Err(MissingId);
      }
      if dto.id.value !in repository.movies {
        return Err(CinemaError(NotFound));
      }
      var updateMovie := repository.movies[dto.id.value];
      if dto.name.Some? && dto.name.value != updateMovie.name {
        var duplicate := MovieRules.CheckForDuplicate(repository.State(), dto.name);
        if duplicate.Some? {
          return Err(duplicate.value);
        }
        updateMovie := updateMovie.(name := dto.name.value);
      }
      if dto.cost.Some? {
        var invalid := MovieRules.CheckCost(dto.cost.value);
        if invalid.Some? {
          return Err(invalid.value);
        }
        updateMovie := updateMovie.(cost := dto.cost.value);
      }
      if dto.releaseDate.Some? {
        updateMovie := updateMovie.(releaseDate := dto.releaseDate.value);
      }
      repository.WriteMovie(updateMovie);
      r := Ok(View(repository.State(), updateMovie.id));
    }

    method Delete(id: Id) returns (r: Result<(), Error>)
      modifies repository
      ensures var out := MovieRules.Delete(old(repository.State()), id);
        r == out.result && repository.State() == out.db
      ensures Valid(old(repository.State())) ==> Valid(repository.State())
    {
      ghost var before := repository.State();
      if Valid(before) {
        MovieRules.DeletePreservesValid(before, id);
      }
      if id !in repository.movies {
        return Err(CinemaError(NotFound));
      }
      repository.DeleteMovieById(id);
      r := Ok(());
    }
  }
}
