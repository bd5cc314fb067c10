// A client of the two services, run against a fresh database: what a
// caller can prove from the services' contracts alone.

module Scenario {
  import opened Wrappers
  import opened Errors
  import opened Domain
  import opened Store
  import MovieService
  import OrderService

  /**
   * Create "Dune", try to create it again, book it, try to update the
   * booking to zero participants, delete the movie, and look the booking up.
   */
  method DuneScenario(today: Date)
    returns (second: Result<MovieDtoAll, Error>, booking: Result<Order, Error>,
             emptied: Result<Order, Error>, lookup: Result<Order, Error>)
    ensures second == Err(CinemaError(AlreadyOccupied))
    ensures booking.Ok? && booking.value.orderTime == today && booking.value.participants == 3
    ensures emptied == Err(CinemaError(InternalError))
    ensures lookup == Err(CinemaError(NotFound))
  {
    var db := new Database();
    var movies := new MovieService.MovieServiceI(db);
    var orders := new OrderService.OrderServiceI(db);
    var dune := MovieDto(None, Some("Dune"), Some(Date(19723)), Some(10));
    var first := movies.Create(dune);
    var duneId := first.value.movie.id;
    assert db.movies[duneId].name == "Dune";
    second := movies.Create(dune);
    booking := orders.Create(OrderDto(None, Some(duneId), None, Some(3)), today);
    var bookingId := booking.value.id;
    emptied := orders.Update(OrderDto(Some(bookingId), None, None, Some(0)));
    var deleted := movies.Delete(duneId);
    lookup := orders.FindById(bookingId);
  }
}
