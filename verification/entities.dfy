/**
  The domain entities of the movie-rental business: movies with their stock and
  rental counters, customers with at most one active rental, and rentals with
  their price, return date and late fee.

  Values stand for the source's mutable records: an operation that changes a
  record returns the changed copy (or the error it raises, leaving the record
  as it was). Prices are whole cents and timestamps whole seconds.
 */
module Entities {
  import opened Exceptions

  /** Length of one rental day, in the seconds timestamps are counted in. */
  const SecondsPerDay: int := 86400

  // ---------------------------------------------------------------------------
  // Movie
  // ---------------------------------------------------------------------------

  /** A catalogue entry: `stock` copies are owned, `rented` of them are out.
      `id` is `None` until a repository assigns one. */
  datatype Movie = Movie(id: Option<int>, name: string, stock: int, rented: int, pricePerDay: nat)

  /** Copies that can still be rented: owned copies not currently out. */
  function Available(m: Movie): (a: int)
    ensures a + m.rented == m.stock
    ensures 0 <= m.rented <= m.stock ==> 0 <= a <= m.stock
    ensures a == 0 <==> m.rented == m.stock
  {
    m.stock - m.rented
  }

  /** The stock invariant: never more copies out than owned, never fewer than none. */
  predicate Valid(m: Movie) {
    0 <= m.rented <= m.stock
  }

  /** A freshly catalogued movie, with no copy rented yet. */
  function NewMovie(id: Option<int>, name: string, stock: int, pricePerDay: nat): (m: Movie)
    ensures m.id == id && m.name == name && m.stock == stock && m.pricePerDay == pricePerDay
    ensures Available(m) == stock
    ensures Valid(m) <==> stock >= 0
  {
    Movie(id, name, stock, 0, pricePerDay)
  }

  /** Buys `number` more copies; there is no bound on either side. */
  function AddToInventory(m: Movie, number: int): (r: Movie)
    ensures r.stock == m.stock + number
    ensures Available(r) == Available(m) + number
    ensures r == m.(stock := r.stock)
    ensures Valid(m) && number >= 0 ==> Valid(r)
  {
    m.(stock := m.stock + number)
  }

  /** Writes off `number` copies, bottoming out at an empty stock rather than failing. */
  function RemoveFromInventory(m: Movie, number: int): (r: Movie)
    ensures r.stock >= 0
    ensures r.stock >= m.stock - number
    ensures r.stock == 0 || r.stock == m.stock - number
    ensures number <= m.stock ==> r.stock == m.stock - number
    ensures r == m.(stock := r.stock)
  {
    if number > m.stock then m.(stock := 0) else m.(stock := m.stock - number)
  }

  /** Hands out one copy, failing with `OutOfStock` when none is available. */
  function RentMovie(m: Movie): (r: Result<Movie>)
    ensures r.Err? <==> Available(m) <= 0
    ensures r.Err? ==> r.error == OutOfStock
    ensures r.Ok? ==> r.value.rented == m.rented + 1 && Available(r.value) == Available(m) - 1
    ensures r.Ok? ==> r.value == m.(rented := r.value.rented)
    ensures r.Ok? && Valid(m) ==> Valid(r.value)
  {
    if m.rented >= m.stock then Err(OutOfStock) else Ok(m.(rented := m.rented + 1))
  }

  /** Takes one copy back, failing with `Operation` when none is out. */
  function ReturnMovie(m: Movie): (r: Result<Movie>)
    ensures r.Err? <==> m.rented <= 0
    ensures r.Err? ==> r.error == Operation
    ensures r.Ok? ==> r.value.rented == m.rented - 1 && Available(r.value) == Available(m) + 1
    ensures r.Ok? ==> r.value == m.(rented := r.value.rented)
    ensures r.Ok? && Valid(m) ==> Valid(r.value)
  {
    if m.rented <= 0 then Err(Operation) else Ok(m.(rented := m.rented - 1))
  }

  /** The price of renting this movie for `days` days; fewer than one day is forbidden. */
  function GetRentPrice(m: Movie, days: int): (r: Result<nat>)
    ensures r.Err? <==> days < 1
    ensures r.Err? ==> r.error == ForbiddenOperation
    ensures r.Ok? ==> r.value == m.pricePerDay * days && r.value >= m.pricePerDay
  {
    if days < 1 then Err(ForbiddenOperation) else Ok(m.pricePerDay * days)
  }

  /** Renting then returning a copy gives back the movie as it was. */
  lemma RentThenReturn(m: Movie)
    requires Available(m) > 0 && m.rented >= 0
    ensures RentMovie(m).Ok?
    ensures ReturnMovie(RentMovie(m).value) == Ok(m)
  {
  }

  /** Returning then renting a copy gives back the movie as it was. */
  lemma ReturnThenRent(m: Movie)
    requires 0 < m.rented <= m.stock
    ensures ReturnMovie(m).Ok?
    ensures RentMovie(ReturnMovie(m).value) == Ok(m)
  {
  }

  /** Adding copies and then writing the same number off restores the stock,
      as long as the stock was not negative to begin with. */
  lemma InventoryRoundTrip(m: Movie, number: int)
    requires m.stock >= 0
    ensures RemoveFromInventory(AddToInventory(m, number), number) == m
  {
  }

  /** Writing off no more copies than are available keeps the stock invariant. */
  lemma RemoveKeepsValid(m: Movie, number: int)
    requires Valid(m) && 0 <= number <= Available(m)
    ensures Valid(RemoveFromInventory(m, number))
  {
  }

  /** `count` rentals in a row, stopping at the first one that fails. */
  function RentTimes(m: Movie, count: nat): Result<Movie>
    decreases count
  {
    if count == 0 then Ok(m)
    else match RentMovie(m)
      case Err(e) => Err(e)
      case Ok(next) => RentTimes(next, count - 1)
  }

  /** Exactly as many rentals succeed as there are copies available; one more
      fails with `OutOfStock`. */
  lemma {:induction false} RentTimesExact(m: Movie, count: nat)
    ensures count <= Available(m) ==> RentTimes(m, count) == Ok(m.(rented := m.rented + count))
    ensures count > Available(m) && count > 0 ==> RentTimes(m, count) == Err(OutOfStock)
    decreases count
  {
    if count > 0 {
      if Available(m) > 0 {
        var next := m.(rented := m.rented + 1);
        RentTimesExact(next, count - 1);
        assert next.(rented := next.rented + (count - 1)) == m.(rented := m.rented + count);
      }
    }
  }

  /** A movie that starts with nothing rented can be rented exactly `stock`
      times, after which nothing is available and the next rental fails. */
  lemma RentWholeStock(m: Movie)
    requires m.rented == 0 && m.stock >= 0
    ensures Available(m) == m.stock
    ensures RentTimes(m, m.stock) == Ok(m.(rented := m.stock))
    ensures Available(m.(rented := m.stock)) == 0
    ensures RentMovie(m.(rented := m.stock)) == Err(OutOfStock)
    ensures RentTimes(m, m.stock + 1) == Err(OutOfStock)
  {
    RentTimesExact(m, m.stock);
    RentTimesExact(m, m.stock + 1);
  }

  // ---------------------------------------------------------------------------
  // Customer and Rental
  // ---------------------------------------------------------------------------

  /** A customer, their past rentals (`None` until a history is attached), and
      the single rental they may have open. */
  datatype Customer = Customer(
    id: int,
    name: string,
    lastname: string,
    rentalHistory: Option<seq<Rental>>,
    activeRental: Option<Rental>)

  /** Some movies rented together by one customer for `days` days from `rentDate`.
      `returnDate` is `None` until the movies come back. */
  datatype Rental = Rental(
    movies: seq<Movie>,
    customer: Customer,
    rentDate: int,
    days: int,
    returnDate: Option<int>,
    lateFee: nat)

  /** A new customer: no history at all (not even an empty one) and no active rental. */
  function NewCustomer(id: int, name: string, lastname: string): (c: Customer)
    ensures c.id == id && c.name == name && c.lastname == lastname
    ensures c.rentalHistory.None? && c.activeRental.None?
  {
    Customer(id, name, lastname, None, None)
  }

  /** Opens `rental` for the customer; a second open rental is forbidden. */
  function SetActiveRental(c: Customer, rental: Rental): (r: Result<Customer>)
    ensures r.Err? <==> c.activeRental.Some?
    ensures r.Err? ==> r.error == ForbiddenOperation
    ensures r.Ok? ==> r.value.activeRental == Some(rental)
    ensures r.Ok? ==> r.value.rentalHistory == c.rentalHistory
    ensures r.Ok? ==> FinishActiveRental(r.value) == Ok(c)
  {
    if c.activeRental.Some? then Err(ForbiddenOperation) else Ok(c.(activeRental := Some(rental)))
  }

  /** Closes the customer's open rental; there must be one. The history is left alone. */
  function FinishActiveRental(c: Customer): (r: Result<Customer>)
    ensures r.Err? <==> c.activeRental.None?
    ensures r.Err? ==> r.error == Operation
    ensures r.Ok? ==> r.value.activeRental.None?
    ensures r.Ok? ==> r.value.rentalHistory == c.rentalHistory
    ensures r.Ok? ==> r.value == c.(activeRental := None)
  {
    if c.activeRental.None? then Err(Operation) else Ok(c.(activeRental := None))
  }

  /** Once a rental is open, any further one is refused and the open one stays. */
  lemma AtMostOneActiveRental(c: Customer, first: Rental, second: Rental)
    requires c.activeRental.None?
    ensures SetActiveRental(c, first).Ok?
    ensures SetActiveRental(SetActiveRental(c, first).value, second) == Err(ForbiddenOperation)
    ensures SetActiveRental(c, first).value.activeRental == Some(first)
  {
  }

  /** A rental that has just been made: nothing returned, no late fee. */
  function NewRental(movies: seq<Movie>, customer: Customer, rentDate: int, days: int): (r: Rental)
    ensures !Returned(r) && r.lateFee == 0
    ensures r.movies == movies && r.customer == customer && r.rentDate == rentDate && r.days == days
  {
    Rental(movies, customer, rentDate, days, None, 0)
  }

  /** Whether the movies have come back: a return date has been recorded. */
  predicate Returned(r: Rental)
    ensures Returned(r) <==> r.returnDate != None
  {
    r.returnDate.Some?
  }

  /** Sum of the daily prices of `movies`. */
  function TotalPricePerDay(movies: seq<Movie>): nat
    decreases |movies|
  {
    if |movies| == 0 then 0
    else TotalPricePerDay(movies[..|movies| - 1]) + movies[|movies| - 1].pricePerDay
  }

  /** The rent prices of all `movies` for `days` days, added up; the prices
      are computed in order and the first that cannot be makes the sum fail. */
  function SumRentPrices(movies: seq<Movie>, days: int): (r: Result<nat>)
    ensures |movies| == 0 ==> r == Ok(0)
    ensures |movies| > 0 && days < 1 ==> r == Err(ForbiddenOperation)
    ensures days >= 1 ==> r == Ok(days * TotalPricePerDay(movies))
    decreases |movies|
  {
    if |movies| == 0 then Ok(0)
    else match SumRentPrices(movies[..|movies| - 1], days)
      case Err(e) => Err(e)
      case Ok(earlier) =>
        match GetRentPrice(movies[|movies| - 1], days)
        case Err(e) => Err(e)
        case Ok(price) => Ok(earlier + price)
  }

  /** What the rental costs for its contracted days. */
  function Amount(r: Rental): (a: Result<nat>)
    ensures a.Err? <==> |r.movies| > 0 && r.days < 1
    ensures a.Err? ==> a.error == ForbiddenOperation
    ensures a.Ok? ==> a.value == r.days * TotalPricePerDay(r.movies)
  {
    SumRentPrices(r.movies, r.days)
  }

  /** What the rental costs in all: its amount plus whatever late fee was charged. */
  function TotalAmount(r: Rental): (t: Result<nat>)
    ensures t.Err? <==> Amount(r).Err?
    ensures t.Err? ==> t.error == ForbiddenOperation
    ensures t.Ok? ==> t.value == r.days * TotalPricePerDay(r.movies) + r.lateFee
  {
    match Amount(r)
    case Err(e) => Err(e)
    case Ok(a) => Ok(a + r.lateFee)
  }

  /** Whole days by which a return at `at` overruns the contracted period,
      truncated; zero when the return is not late. */
  function WholeDaysLate(r: Rental, at: int): (late: int)
    ensures late >= 0
    ensures at - r.rentDate <= r.days * SecondsPerDay ==> late == 0
    ensures at - r.rentDate > r.days * SecondsPerDay ==>
      late * SecondsPerDay <= at - r.rentDate - r.days * SecondsPerDay < (late + 1) * SecondsPerDay
  {
    var elapsed := at - r.rentDate;
    var expected := r.days * SecondsPerDay;
    if elapsed > expected then (elapsed - expected) / SecondsPerDay else 0
  }

  /** Returns the movies at `at` exactly as the source does: the return date is
      recorded before the late fee is computed, so a return late by less than
      one whole day raises `ForbiddenOperation` with the date already set. */
  function ReturnMoviesAsWritten(r: Rental, at: int): (o: Outcome<Rental>)
    ensures o.raised.None? || o.raised == Some(Operation) || o.raised == Some(ForbiddenOperation)
    ensures o.raised == Some(Operation) <==> at < r.rentDate
    ensures at < r.rentDate ==> o.state == r
    ensures o.raised == Some(ForbiddenOperation) ==> o.state == r.(returnDate := Some(at))
    ensures at >= r.rentDate ==> o.state.returnDate == Some(at)
    ensures o.raised == Some(ForbiddenOperation) <==>
      at >= r.rentDate && r.days * SecondsPerDay < at - r.rentDate < (r.days + 1) * SecondsPerDay && |r.movies| > 0
    ensures o.raised.None? && (|r.movies| > 0 || r.lateFee == 0) ==> ReturnMovies(r, at) == Ok(o.state)
  {
    if at < r.rentDate then Outcome(r, Some(Operation))
    else
      var returned := r.(returnDate := Some(at));
      var elapsed := at - r.rentDate;
      var expected := r.days * SecondsPerDay;
      if elapsed > expected then
        var extraDays := (elapsed - expected) / SecondsPerDay;
        match SumRentPrices(r.movies, extraDays)
        case Err(e) => Outcome(returned, Some(e))
        case Ok(fee) => Outcome(returned.(lateFee := fee), None)
      else Outcome(returned, None)
  }

  /** Returns the movies at `at`: a date before the rent date is refused;
      otherwise the date is recorded and, when the return overruns the
      contracted days by at least one whole day, the late fee becomes the rent
      price of every movie for those extra days. A return late by less than one
      whole day is not charged. */
  function ReturnMovies(r: Rental, at: int): (res: Result<Rental>)
    ensures res.Err? <==> at < r.rentDate
    ensures res.Err? ==> res.error == Operation
    ensures res.Ok? ==> Returned(res.value) && res.value.returnDate == Some(at) && at >= r.rentDate
    ensures res.Ok? ==> res.value == r.(returnDate := Some(at), lateFee := res.value.lateFee)
    ensures res.Ok? && WholeDaysLate(r, at) >= 1 ==>
      SumRentPrices(r.movies, WholeDaysLate(r, at)) == Ok(res.value.lateFee)
      && res.value.lateFee == WholeDaysLate(r, at) * TotalPricePerDay(r.movies)
    ensures res.Ok? && WholeDaysLate(r, at) < 1 ==> res.value.lateFee == r.lateFee
  {
    if at < r.rentDate then Err(Operation)
    else
      var returned := r.(returnDate := Some(at));
      var elapsed := at - r.rentDate;
      var expected := r.days * SecondsPerDay;
      if elapsed > expected then
        var extraDays := (elapsed - expected) / SecondsPerDay;
        if extraDays < 1 then Ok(returned)
        else Ok(returned.(lateFee := SumRentPrices(r.movies, extraDays).value))
      else Ok(returned)
  }

  /** A return within the contracted days charges no late fee, so the total is
      the amount. */
  lemma OnTimeReturn(r: Rental, at: int)
    requires r.lateFee == 0
    requires r.rentDate <= at <= r.rentDate + r.days * SecondsPerDay
    ensures ReturnMovies(r, at).Ok?
    ensures ReturnMovies(r, at).value.lateFee == 0
    ensures TotalAmount(ReturnMovies(r, at).value) == Amount(r)
  {
  }

  /** A return `extra` whole days after the contracted period charges every
      movie's rent price for `extra` days, and the total is amount plus fee. */
  lemma LateReturn(r: Rental, extra: int)
    requires extra >= 1 && r.days >= 1
    ensures ReturnMovies(r, r.rentDate + (r.days + extra) * SecondsPerDay).Ok?
    ensures var back := ReturnMovies(r, r.rentDate + (r.days + extra) * SecondsPerDay).value;
      && SumRentPrices(r.movies, extra) == Ok(back.lateFee)
      && TotalAmount(back) == Ok(Amount(r).value + back.lateFee)
  {
  }

  /** The source's return raises after recording the date when the return is
      late by part of a day: one movie rented for a day, back 25 hours later. */
  lemma PartialDayLateRaises(c: Customer, m: Movie)
    ensures var r := NewRental([m], c, 0, 1);
      var o := ReturnMoviesAsWritten(r, 25 * 3600);
      && o.raised == Some(ForbiddenOperation)
      && Returned(o.state)
      && ReturnMovies(r, 25 * 3600) == Ok(r.(returnDate := Some(25 * 3600)))
  {
  }

  /** Movies that all cost the same per day cost that price times their number. */
  lemma {:induction false} UniformTotalPricePerDay(movies: seq<Movie>, price: nat)
    requires forall i :: 0 <= i < |movies| ==> movies[i].pricePerDay == price
    ensures TotalPricePerDay(movies) == |movies| * price
    decreases |movies|
  {
    if |movies| > 0 {
      UniformTotalPricePerDay(movies[..|movies| - 1], price);
    }
  }

  /** Five movies at 2.99 a day, rented for three days, cost 44.85. */
  lemma FiveMoviesThreeDays(c: Customer, movies: seq<Movie>)
    requires |movies| == 5
    requires forall i :: 0 <= i < 5 ==> movies[i].pricePerDay == 299
    ensures Amount(NewRental(movies, c, 0, 3)) == Ok(4485)
  {
    UniformTotalPricePerDay(movies, 299);
  }
}
