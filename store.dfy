// The relational store both services work against: a movie table and an
// order table keyed by auto-increment ids, the invariants the services
// keep on it, and the repository object through which they change it.

module Store {
  import opened Wrappers
  import opened Domain

  /** The two tables, and for each the next id its identity column hands out. */
  datatype Db = Db(movies: map<Id, Movie>, orders: map<Id, Order>, nextMovieId: Id, nextOrderId: Id)

  /** What a service call returns, together with the store it leaves behind. */
  datatype Outcome<T> = Outcome(result: Result<T, Error>, db: Db)

  /** Every row sits under its own id, and every id is below the next one to be handed out. */
  predicate KeysAreIds(db: Db) {
    && (forall k :: k in db.movies ==> db.movies[k].id == k && k < db.nextMovieId)
    && (forall k :: k in db.orders ==> db.orders[k].id == k && k < db.nextOrderId)
  }

  /** No two movies share a name. */
  predicate UniqueNames(db: Db) {
    forall j, k :: j in db.movies && k in db.movies && db.movies[j].name == db.movies[k].name ==> j == k
  }

  /** Every movie costs more than 0 and every order has more than 0 participants. */
  predicate PositiveAmounts(db: Db) {
    && (forall k :: k in db.movies ==> db.movies[k].cost > 0)
    && (forall k :: k in db.orders ==> db.orders[k].participants > 0)
  }

  /** Every order's movie id names a stored movie. */
  predicate OrdersReferenceMovies(db: Db) {
    forall k :: k in db.orders ==> db.orders[k].movieId in db.movies
  }

  /** The store invariants the services keep. */
  predicate Valid(db: Db) {
    KeysAreIds(db) && UniqueNames(db) && PositiveAmounts(db) && OrdersReferenceMovies(db)
  }

  /** A freshly created database: both tables empty, both identity columns starting at 1. */
  const Empty: Db := Db(map[], map[], 1, 1)

  lemma EmptyIsValid()
    ensures Valid(Empty)
  {
  }

  /** `existsByName`: some stored movie has exactly this name (never so for a null name). */
  predicate NameTaken(db: Db, name: Option<string>) {
    name.Some? && name.value in set k | k in db.movies :: db.movies[k].name
  }

  /** The orders whose movie id is `movieId`: the `orders` collection of that movie. */
  function OrdersOf(db: Db, movieId: Id): (r: map<Id, Order>)
    ensures forall k :: k in r <==> k in db.orders && db.orders[k].movieId == movieId
    ensures forall k :: k in r ==> r[k] == db.orders[k]
  {
    map k | k in db.orders && db.orders[k].movieId == movieId :: db.orders[k]
  }

  /** A stored movie as the movie service returns it, with its orders. */
  function View(db: Db, id: Id): MovieDtoAll
    requires id in db.movies
  {
    MovieDtoAll(db.movies[id], OrdersOf(db, id))
  }

  /** The repository object both services share. */
  class Database {
    var movies: map<Id, Movie>
    var orders: map<Id, Order>
    var nextMovieId: Id
    var nextOrderId: Id

    function State(): Db
      reads this
    {
      Db(movies, orders, nextMovieId, nextOrderId)
    }

    constructor ()
      ensures State() == Empty
    {
      movies, orders := map[], map[];
      nextMovieId, nextOrderId := 1, 1;
    }

    /** `save` of a new movie: stores it under the next identity value and returns it with that id. */
    method InsertMovie(m: Movie) returns (saved: Movie)
      modifies this
      ensures saved == m.(id := old(nextMovieId))
      ensures movies == old(movies)[saved.id := saved] && nextMovieId == old(nextMovieId) + 1
      ensures orders == old(orders) && nextOrderId == old(nextOrderId)
    {
      saved := m.(id := nextMovieId);
      movies := movies[saved.id := saved];
      nextMovieId := nextMovieId + 1;
    }

    /** Commit of a movie changed in place: its row now holds `m`. */
    method WriteMovie(m: Movie)
      modifies this
      ensures State() == old(State()).(movies := old(movies)[m.id := m])
    {
      movies := movies[m.id := m];
    }

    /** `deleteById` of a movie: the row goes, and so, by cascade, do the orders that reference it. */
    method DeleteMovieById(id: Id)
      modifies this
      ensures movies == old(movies) - {id}
      ensures orders == map k | k in old(orders) && old(orders)[k].movieId != id :: old(orders)[k]
      ensures nextMovieId == old(nextMovieId) && nextOrderId == old(nextOrderId)
    {
      movies := movies - {id};
      orders := map k | k in orders && orders[k].movieId != id :: orders[k];
    }

    /** `save` of a new order: stores it under the next identity value and returns it with that id. */
    method InsertOrder(o: Order) returns (saved: Order)
      modifies this
      ensures saved == o.(id := old(nextOrderId))
      ensures orders == old(orders)[saved.id := saved] && nextOrderId == old(nextOrderId) + 1
      ensures movies == old(movies) && nextMovieId == old(nextMovieId)
    {
      saved := o.(id := nextOrderId);
      orders := orders[saved.id := saved];
      nextOrderId := nextOrderId + 1;
    }

    /** Commit of an order changed in place: its row now holds `o`. */
    method WriteOrder(o: Order)
      modifies this
      ensures State() == old(State()).(orders := old(orders)[o.id := o])
    {
      orders := orders[o.id := o];
    }

    /** `deleteById` of an order: only that row goes. */
    method DeleteOrderById(id: Id)
      modifies this
      ensures State() == old(State()).(orders := old(orders) - {id})
    {
      orders := orders - {id};
    }
  }
}
