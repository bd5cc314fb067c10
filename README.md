# Cinema catalogue: movie and order services

This project is a Dafny model of the service layer of a small cinema catalogue. The catalogue stores movies and orders; an order books some participants onto a movie. The model covers:

- the movie service and the order service: find by id, search, create, update (a sparse patch) and delete, each with its guards and the error each guard raises;
- the two search-filter builders, which turn partly filled criteria into a conjunction of optional clauses;
- the `ErrorType` enumeration and its HTTP statuses.

The store is two tables, `id -> Movie` and `id -> Order`. Each table has an auto-increment identity counter. The store keeps four invariants (`Store.Valid`):

- movie names are unique;
- every cost and every participant count is positive;
- every order's `movieId` names a stored movie;
- every row sits under its own id, below the next id to be handed out.

Deleting a movie also deletes its orders, as the `orders` collection's `CascadeType.ALL` mapping does.

Layout:

- `wrappers.dfy`: `Option` (Java `null`) and `Result` (a value or a thrown exception).
- `errors.dfy`: `ErrorType` and its status table.
- `domain.dfy`: the entities `Movie` and `Order`, the request bodies `MovieDto` and `OrderDto` (every field optional), and `MovieDtoAll`.
- `specification.dfy`: the `where`/`and` filter combinators. A clause is a predicate on the entity; a missing clause restricts nothing.
- `movie_specification.dfy`, `order_specification.dfy`: the two filter builders and `Matches`.
- `store.dfy`: the store value `Db`, its invariants, and the `Database` class the services share, with one method per repository write.
- `movie_service.dfy`, `order_service.dfy`: two modules each.
  - `MovieRules` and `OrderRules` are pure functions. Each gives what one call returns and the store it leaves behind, and the lemmas about them prove the guards' guarantees.
  - `MovieService.MovieServiceI` and `OrderService.OrderServiceI` are classes over the shared `Database`. Their methods run the guards as statements and are proved to match those functions.
- `scenario.dfy`: a client that drives both services on a fresh database.

Every operation is atomic, as the transactional service classes are: a failing call leaves the store unchanged. `update` changes a copy of the row and writes it back once, after every guard has passed. This stands for the in-place setters followed by the commit.

Behaviour of the code that is easy to misread, which the model follows:

- Movie `create` checks for a duplicate name before it checks for missing fields (src/main/java/com/goose/cinema/service/MovieServiceI.java:48-53).
- Missing fields and non-positive numbers fail with `INTERNAL_ERROR`, whose status is 500, even though the request is at fault.
- Order `create` always stamps today's date, even when the caller gives an order time (src/main/java/com/goose/cinema/service/OrderServiceI.java:53). One integration test expects the caller's date back (src/test/java/com/goose/cinema/integration/OrderControllerTest.java:58).
- The repository's `existsByName(null)` is false, so a create request without a name gets past the duplicate check and fails on the missing field.
- An update request without an id makes the repository reject the null id. That failure is not an `ErrorType`; it is modelled as `Error.MissingId`.

## Model

| member | source | states |
|---|---|---|
| Errors.HttpError | src/main/java/com/goose/cinema/exception/ErrorType.java:8-13 | every status is an HTTP error code between 400 and 599 |
| Errors.HttpErrorTable | src/main/java/com/goose/cinema/exception/ErrorType.java:8-10 | INTERNAL_ERROR is 500, NOT_FOUND is 404, ALREADY_OCCUPIED is 400 |
| Errors.KindOfStatus | src/main/java/com/goose/cinema/exception/ErrorType.java:8-10 | the inverse mapping: a kind it returns has that status; when it returns none, no kind has that status |
| Errors.HttpErrorInjective | src/main/java/com/goose/cinema/exception/ErrorType.java:8-10 | the three statuses are pairwise distinct, so the status determines the kind |
| Errors.KindOfStatusRoundTrip | src/main/java/com/goose/cinema/exception/ErrorType.java:8-13 | kind to status and back gives the same kind |
| Specification.HoldsWhere | src/main/java/com/goose/cinema/specification/MovieSpecification.java:15 | `where` of a null clause restricts nothing; `where` of a clause holds exactly when the clause does |
| Specification.HoldsAnd | src/main/java/com/goose/cinema/specification/MovieSpecification.java:15-17 | `and` is conjunction; `and` of a null clause changes nothing |
| MovieSpecification.ContainsIffSplit | src/main/java/com/goose/cinema/specification/MovieSpecification.java:23 | the recursive substring test holds exactly when the name is some text, then the pattern, then some text (`LIKE '%name%'`) |
| MovieSpecification.ContainsEmpty | src/main/java/com/goose/cinema/specification/MovieSpecification.java:23 | every name contains the empty text (`%%`) |
| MovieSpecification.LikeName | src/main/java/com/goose/cinema/specification/MovieSpecification.java:20-23 | gives no clause exactly when the name is null; otherwise the clause holds exactly when the stored name contains the given one |
| MovieSpecification.EqualCost | src/main/java/com/goose/cinema/specification/MovieSpecification.java:26-29 | gives no clause exactly when the cost is null; otherwise the clause holds exactly when the stored cost equals it |
| MovieSpecification.EqualReleaseDate | src/main/java/com/goose/cinema/specification/MovieSpecification.java:32-35 | gives no clause exactly when the date is null; otherwise the clause holds exactly when the stored date equals it |
| MovieSpecification.Build | src/main/java/com/goose/cinema/specification/MovieSpecification.java:14-18 | `movieSpecification` starts from `where(likeName)` and adds `equalCost` and `equalReleaseDate` with `and`, so each non-null field gives exactly one clause; what the filter admits is stated by MatchesIff |
| MovieSpecification.MatchesIff | src/main/java/com/goose/cinema/specification/MovieSpecification.java:14-17 | a movie matches exactly when it satisfies every clause whose field is present; the id is ignored |
| MovieSpecification.EmptyCriteriaMatchAll | src/main/java/com/goose/cinema/specification/MovieSpecification.java:14-35 | criteria whose fields are all null match every movie |
| MovieSpecification.EmptyNameIsNoConstraint | src/main/java/com/goose/cinema/specification/MovieSpecification.java:20-23 | an empty name matches exactly what a null name matches |
| MovieSpecification.MatchesMonotone | src/main/java/com/goose/cinema/specification/MovieSpecification.java:14-17 | adding a field to the criteria never lets more movies through |
| OrderSpecification.EqualMovieId | src/main/java/com/goose/cinema/specification/OrderSpecification.java:20-23 | gives no clause exactly when the movie id is null; otherwise the clause is equality on the movie id |
| OrderSpecification.EqualOrderTime | src/main/java/com/goose/cinema/specification/OrderSpecification.java:26-29 | gives no clause exactly when the order time is null; otherwise the clause is equality on the order time |
| OrderSpecification.EqualParticipants | src/main/java/com/goose/cinema/specification/OrderSpecification.java:32-35 | gives no clause exactly when the count is null; otherwise the clause is equality on the participants |
| OrderSpecification.Build | src/main/java/com/goose/cinema/specification/OrderSpecification.java:14-18 | `orderSpecification` starts from `where(equalMovieid)` and adds `equalOrderTime` and `equalParticipants` with `and`, so each non-null field gives exactly one clause; what the filter admits is stated by MatchesIff |
| OrderSpecification.MatchesIff | src/main/java/com/goose/cinema/specification/OrderSpecification.java:14-17 | an order matches exactly when every present field equals the stored one; the id is ignored |
| OrderSpecification.EmptyCriteriaMatchAll | src/main/java/com/goose/cinema/specification/OrderSpecification.java:14-35 | criteria whose fields are all null match every order |
| OrderSpecification.MatchesMonotone | src/main/java/com/goose/cinema/specification/OrderSpecification.java:14-17 | adding a field to the criteria never lets more orders through |
| Store.OrdersOf | src/main/java/com/goose/cinema/persistance/Movie.java:35 | a movie's orders are exactly the stored orders whose movieId is that movie's id, unchanged |
| Store.EmptyIsValid | src/main/java/com/goose/cinema/persistance/Movie.java:21-37 | the empty store meets every store invariant |
| Store.Database.constructor | src/main/java/com/goose/cinema/persistance/Movie.java:21-24 | a new database has empty tables, and both identity counters start at 1 |
| Store.Database.InsertMovie | src/main/java/com/goose/cinema/service/MovieServiceI.java:60 | `save` of a new movie stores it under the next identity value, returns it with that id, and leaves the orders alone |
| Store.Database.WriteMovie | src/main/java/com/goose/cinema/service/MovieServiceI.java:70-80 | committing a movie changed in place replaces only that row |
| Store.Database.DeleteMovieById | src/main/java/com/goose/cinema/service/MovieServiceI.java:90 | removes the movie and, by cascade, exactly the orders that reference it |
| Store.Database.InsertOrder | src/main/java/com/goose/cinema/service/OrderServiceI.java:56 | `save` of a new order stores it under the next identity value, returns it with that id, and leaves the movies alone |
| Store.Database.WriteOrder | src/main/java/com/goose/cinema/service/OrderServiceI.java:67-77 | committing an order changed in place replaces only that row |
| Store.Database.DeleteOrderById | src/main/java/com/goose/cinema/service/OrderServiceI.java:88 | removes only that order |
| MovieRules.CheckForDuplicate | src/main/java/com/goose/cinema/service/MovieServiceI.java:94-98 | fails ALREADY_OCCUPIED exactly when the name is non-null and some stored movie has it |
| MovieRules.CheckCost | src/main/java/com/goose/cinema/service/MovieServiceI.java:100-104 | fails INTERNAL_ERROR exactly when the cost is not positive |
| MovieRules.FindById | src/main/java/com/goose/cinema/service/MovieServiceI.java:32-36 | succeeds exactly when the id is stored, and returns that movie with exactly its orders, each with its stored values; otherwise fails NOT_FOUND |
| MovieRules.SearchAll | src/main/java/com/goose/cinema/service/MovieServiceI.java:40-44 | returns exactly the stored movies that match the criteria, each with its orders |
| MovieRules.SearchAllEmptyCriteria | src/main/java/com/goose/cinema/service/MovieServiceI.java:40-44 | criteria whose fields are all null find every stored movie |
| MovieRules.SearchAllMonotone | src/main/java/com/goose/cinema/service/MovieServiceI.java:40-44 | narrower criteria find a subset of what wider criteria find |
| MovieRules.Create | src/main/java/com/goose/cinema/service/MovieServiceI.java:47-63 | fails ALREADY_OCCUPIED exactly when the name is taken, checked first. Otherwise it fails INTERNAL_ERROR exactly when a field is missing or the cost is not positive. A failure changes nothing. It succeeds exactly when the name is free, all three fields are given and the cost is positive. A success stores one movie with the given fields under the next id |
| MovieRules.Merge | src/main/java/com/goose/cinema/service/MovieServiceI.java:70-80 | each present patch field replaces the stored one; absent fields and the id are kept |
| MovieRules.MergeEmptyPatch | src/main/java/com/goose/cinema/service/MovieServiceI.java:70-80 | a patch with no fields leaves the movie unchanged |
| MovieRules.Update | src/main/java/com/goose/cinema/service/MovieServiceI.java:66-83 | fails, in this order: MissingId without an id; NOT_FOUND for an unknown id; ALREADY_OCCUPIED only for a new name, different from the current one, that is taken; INTERNAL_ERROR for a present non-positive cost. A failure changes nothing. A success replaces only that movie by the merged one |
| MovieRules.Delete | src/main/java/com/goose/cinema/service/MovieServiceI.java:86-91 | fails NOT_FOUND exactly when the id is unknown, changing nothing. Otherwise it removes the movie and exactly the orders that reference it |
| MovieRules.CreateAddsOneMovie | src/main/java/com/goose/cinema/service/MovieServiceI.java:56-62 | on a valid store, a created movie gets an unused id and no orders. Only that key is added, and no other movie or order changes |
| MovieRules.CreateThenFind | src/main/java/com/goose/cinema/service/MovieServiceI.java:47-63 | finding a created movie by its new id gives back the given name, cost and release date |
| MovieRules.UpdateSameNameIsNoConflict | src/main/java/com/goose/cinema/service/MovieServiceI.java:70-73 | giving the current name again never fails ALREADY_OCCUPIED |
| MovieRules.UpdateIdOnlyIsNoop | src/main/java/com/goose/cinema/service/MovieServiceI.java:66-83 | an update with only an id succeeds, returns the movie as stored, and changes nothing |
| MovieRules.DeleteCascades | src/main/java/com/goose/cinema/persistance/Movie.java:35 | after a movie is deleted, every order that referenced it fails NOT_FOUND |
| MovieRules.CreatePreservesValid | src/main/java/com/goose/cinema/service/MovieServiceI.java:47-63 | create keeps every store invariant |
| MovieRules.UpdatePreservesValid | src/main/java/com/goose/cinema/service/MovieServiceI.java:66-83 | update keeps every store invariant, unique names included |
| MovieRules.DeletePreservesValid | src/main/java/com/goose/cinema/service/MovieServiceI.java:86-91 | delete keeps every store invariant; the cascade leaves no dangling order |
| MovieService.MovieServiceI.constructor | src/main/java/com/goose/cinema/service/MovieServiceI.java:22-28 | the service works on the repository it is given |
| MovieService.MovieServiceI.FindById | src/main/java/com/goose/cinema/service/MovieServiceI.java:32-37 | returns what MovieRules.FindById gives on the current store |
| MovieService.MovieServiceI.SearchAll | src/main/java/com/goose/cinema/service/MovieServiceI.java:40-44 | returns what MovieRules.SearchAll gives on the current store |
| MovieService.MovieServiceI.Create | src/main/java/com/goose/cinema/service/MovieServiceI.java:47-63 | result and new store are those of MovieRules.Create; the store invariants are kept |
| MovieService.MovieServiceI.Update | src/main/java/com/goose/cinema/service/MovieServiceI.java:66-83 | result and new store are those of MovieRules.Update; the store invariants are kept |
| MovieService.MovieServiceI.Delete | src/main/java/com/goose/cinema/service/MovieServiceI.java:86-92 | result and new store are those of MovieRules.Delete; the store invariants are kept |
| OrderRules.CheckExistMovie | src/main/java/com/goose/cinema/service/OrderServiceI.java:91-95 | fails NOT_FOUND exactly when no movie has the id |
| OrderRules.CheckParticipants | src/main/java/com/goose/cinema/service/OrderServiceI.java:97-102 | fails INTERNAL_ERROR exactly when the count is not positive |
| OrderRules.FindById | src/main/java/com/goose/cinema/service/OrderServiceI.java:31-36 | returns the stored order exactly when the id is stored; otherwise fails NOT_FOUND |
| OrderRules.SearchAll | src/main/java/com/goose/cinema/service/OrderServiceI.java:39-42 | returns exactly the stored orders that match the criteria |
| OrderRules.SearchAllEmptyCriteria | src/main/java/com/goose/cinema/service/OrderServiceI.java:39-42 | criteria whose fields are all null find every stored order |
| OrderRules.SearchAllMonotone | src/main/java/com/goose/cinema/service/OrderServiceI.java:39-42 | narrower criteria find a subset of what wider criteria find |
| OrderRules.Create | src/main/java/com/goose/cinema/service/OrderServiceI.java:46-60 | fails INTERNAL_ERROR when movieId or participants is missing. Otherwise it fails NOT_FOUND for an unknown movie, checked before the count, then INTERNAL_ERROR for a non-positive count. A failure changes nothing. It succeeds exactly when both fields are given, the movie exists and the count is positive. A success stores one order under the next id, with the given movie and count and today's date |
| OrderRules.Merge | src/main/java/com/goose/cinema/service/OrderServiceI.java:67-77 | each present patch field replaces the stored one, the order time without any check; absent fields and the id are kept |
| OrderRules.MergeEmptyPatch | src/main/java/com/goose/cinema/service/OrderServiceI.java:67-77 | a patch with no fields leaves the order unchanged |
| OrderRules.Update | src/main/java/com/goose/cinema/service/OrderServiceI.java:63-80 | fails, in this order: MissingId without an id; NOT_FOUND for an unknown order or an unknown given movie; INTERNAL_ERROR for a present non-positive count. It succeeds exactly when none of these applies. A failure changes nothing. A success replaces only that order by the merged one |
| OrderRules.Delete | src/main/java/com/goose/cinema/service/OrderServiceI.java:83-89 | fails NOT_FOUND exactly when the id is unknown, changing nothing; otherwise removes exactly that order |
| OrderRules.CreateAddsOneOrder | src/main/java/com/goose/cinema/service/OrderServiceI.java:51-56 | on a valid store, a created order gets an unused id. Only that key is added, and no other order or movie changes |
| OrderRules.CreateThenFind | src/main/java/com/goose/cinema/service/OrderServiceI.java:46-60 | finding a created order by its new id gives back the given movie and count, dated today |
| OrderRules.UpdateIdOnlyIsNoop | src/main/java/com/goose/cinema/service/OrderServiceI.java:63-80 | an update with only an id succeeds, returns the order as stored, and changes nothing |
| OrderRules.CreatePreservesValid | src/main/java/com/goose/cinema/service/OrderServiceI.java:46-60 | create keeps every store invariant |
| OrderRules.UpdatePreservesValid | src/main/java/com/goose/cinema/service/OrderServiceI.java:63-80 | update keeps every store invariant; the order still names a stored movie |
| OrderRules.DeletePreservesValid | src/main/java/com/goose/cinema/service/OrderServiceI.java:83-89 | delete keeps every store invariant |
| OrderService.OrderServiceI.constructor | src/main/java/com/goose/cinema/service/OrderServiceI.java:21-27 | the service works on the repository it is given |
| OrderService.OrderServiceI.FindById | src/main/java/com/goose/cinema/service/OrderServiceI.java:31-36 | returns what OrderRules.FindById gives on the current store |
| OrderService.OrderServiceI.SearchAll | src/main/java/com/goose/cinema/service/OrderServiceI.java:39-42 | returns what OrderRules.SearchAll gives on the current store |
| OrderService.OrderServiceI.Create | src/main/java/com/goose/cinema/service/OrderServiceI.java:46-60 | result and new store are those of OrderRules.Create, with today's date passed in; the store invariants are kept |
| OrderService.OrderServiceI.Update | src/main/java/com/goose/cinema/service/OrderServiceI.java:63-80 | result and new store are those of OrderRules.Update; the store invariants are kept |
| OrderService.OrderServiceI.Delete | src/main/java/com/goose/cinema/service/OrderServiceI.java:83-89 | result and new store are those of OrderRules.Delete; the store invariants are kept |
| Scenario.DuneScenario | src/main/java/com/goose/cinema/service/OrderServiceI.java:31-89 | on a fresh database: a second "Dune" fails ALREADY_OCCUPIED; booking "Dune" succeeds, dated today; updating the booking to 0 participants fails INTERNAL_ERROR; after "Dune" is deleted, the booking is NOT_FOUND |

## Left out

- HTTP controllers and the exception handler. They only route requests and build responses, so the status a response carries (including the generic 500 for a `MissingId` failure) is not modelled.
- Paging. `searchAll` is modelled as the whole set of matches; `Pageable`, `PageRequest` and `PageImpl` are left out.
- The null search body. `searchAll` with a null body throws inside the filter builder; the model always takes a criteria value.
- SQL `LIKE` wildcards and collation. A `%`, `_` or escape character inside a search name is taken literally, and the match is case-sensitive. The database's collation could make it otherwise.
- JPA object identity. Entities are values in maps, so the model has no aliasing of managed entities, no lazy loading, and no Hibernate-based `equals`/`hashCode`.
- Transactions, isolation and concurrency. Each call is atomic; concurrent calls are not modelled.
- Integer widths. Ids (`Long`) are unbounded integers from a counter, so the identity column never overflows. Cost and participants are 32-bit (`Int32`) and are only compared, never computed with.
- The clock. `LocalDate.now()` is the `today` parameter of order creation.
- The null response list. For a freshly created movie, Java returns a null `orders` list; the model returns the movie's (empty) order map.
- Null path ids. `findById` and `delete` always receive an id from the URL path, so the model types the id as non-null.
- The mapper (`MapStructMapper`). It copies fields only and is taken as the identity.
