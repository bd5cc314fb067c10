// The persisted entities, the transfer objects the services accept and
// return, and the failures a service call can end in.

module Domain {
  import opened Wrappers
  import Errors

  /** A Java `int`/`Integer`: cost and participants are 32-bit. */
  newtype Int32 = x: int | -0x8000_0000 <= x < 0x8000_0000

  /** A surrogate key (a Java `Long`); keys are only ever compared. */
  type Id = int

  /** A calendar date (a `LocalDate`), given by its day count since the epoch. */
  datatype Date = Date(epochDay: int)

  /** A stored movie: every column is non-null. */
  datatype Movie = Movie(id: Id, name: string, releaseDate: Date, cost: Int32)

  /** A stored order: `movieId` is the foreign key to a movie. */
  datatype Order = Order(id: Id, movieId: Id, orderTime: Date, participants: Int32)

  /** The movie request body: every field may be null. It doubles as search criteria and as an update patch. */
  datatype MovieDto = MovieDto(id: Option<Id>, name: Option<string>, releaseDate: Option<Date>, cost: Option<Int32>)

  /** The order request body: every field may be null. */
  datatype OrderDto = OrderDto(id: Option<Id>, movieId: Option<Id>, orderTime: Option<Date>, participants: Option<Int32>)

  /** A movie as the movie service returns it: its columns and the orders that reference it, by id. */
  datatype MovieDtoAll = MovieDtoAll(movie: Movie, orders: map<Id, Order>)

  /**
   * Why a service call failed: an exception carrying an ErrorType, or the
   * repository rejecting a null id when an update request has no id.
   */
  datatype Error = CinemaError(kind: Errors.ErrorType) | MissingId

}
