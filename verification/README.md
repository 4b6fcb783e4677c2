# Movie rental domain in Dafny

A model of the domain layer of a small movie-rental application: movies with
their stock and rental counters, customers who may hold one active rental,
rentals with their price, return date and late fee, an in-memory repository
that keys movies by integer id, and the two catalogue use cases built on it.

Every record is an immutable value. An operation that mutates a record in the
program returns the changed record here, or `Err(e)` with the error it raises
(in which case the record is unchanged). Prices are whole cents (`nat`),
timestamps whole seconds, and one day is 86400 seconds.

| file | module | models |
|---|---|---|
| `exceptions.dfy` | `Exceptions` | the three domain errors, the missing-key error of a dictionary deletion, `Option`, `Result`, `Outcome` |
| `entities.dfy` | `Entities` | `Movie`, `Customer`, `Rental` and their operations |
| `base_repo.dfy` | `MoviesBaseRepo` | the repository in `adapters/repos/base.py` |
| `repository.dfy` | `MoviesRepo` | the repository in `adapters/repository.py`, defined through `MoviesBaseRepo` |
| `actions.dfy` | `Actions` | `list_available_movies` and `add_movie`, with the repository passed explicitly |

## Where the model departs from the code

The code cannot run as written on several paths. The model follows what the
code and its tests evidently mean:

- `entities.py` imports and raises `ForbiddenOperatonError`, a name that
  `exceptions.py` does not define (it defines `ForbiddenOperationError`). The
  model raises `ForbiddenOperation` wherever the misspelt name is raised.
- `Movie` has no `available` member, yet the use case and the tests read one.
  The model defines `Available(m) = stock - rented`. The listing keeps a movie
  when that number is non-zero, which is how Python treats an integer as a
  condition. This differs from `stock > rented` only when more copies are out
  than owned (see `Actions.WriteOffBelowRentedIsListedButUnrentable`).
- `Rental` has no `total_amount`, yet the tests read one. The model defines
  `TotalAmount` as the amount plus the late fee.
- `Movie.rented` has no default, yet the test fixtures build movies without
  it and expect it to start at 0. `NewMovie` builds a movie with nothing rented.
- `Rental.amount` and `Rental.return_movies` pass the day count positionally to
  `get_rent_price`, whose `days` parameter is keyword-only. The model passes
  the day count as intended.
- The fresh id is not the smallest unused positive id. The probe starts at one
  past the number of stored movies, so a free id below that is never chosen.
  The model follows the code (`MoviesBaseRepo.GenerateIdSkipsLowGaps`).

## Model

| member | source | states |
|---|---|---|
| Entities.Available | movies-package/movies/actions.py:11 | the `available` count the listing reads is the owned copies not currently out: it and the rented count add up to the stock, it lies in `[0, stock]` for a movie that keeps the stock invariant, and it is zero exactly when every copy is out |
| Entities.NewMovie | movies-package/movies/entities.py:35-41 | a movie built with no copy out has all of its stock available, and keeps the stock invariant exactly when its stock is non-negative |
| Entities.AddToInventory | movies-package/movies/entities.py:43-44 | stock and availability both grow by exactly the number added, adding a non-negative number keeps the stock invariant; id, name, rented count and price are untouched |
| Entities.RemoveFromInventory | movies-package/movies/entities.py:46-50 | the new stock is the larger of `stock - n` and 0, so it is never negative; nothing but the stock changes |
| Entities.InventoryRoundTrip | movies-package/movies/entities.py:43-50 | adding n copies and then writing n off gives back the same movie whenever the stock was not negative |
| Entities.RemoveKeepsValid | movies-package/movies/entities.py:46-50 | writing off no more than the available copies keeps `0 <= rented <= stock` |
| Entities.RentMovie | movies-package/movies/entities.py:52-56 | fails with OutOfStock exactly when no copy is available; otherwise one more copy is out, the stock is unchanged and the stock invariant is preserved |
| Entities.ReturnMovie | movies-package/movies/entities.py:58-62 | fails with Operation exactly when no copy is out; otherwise one copy fewer is out and the stock invariant is preserved |
| Entities.RentThenReturn | movies-package/movies/tests/test_entitites.py:55-61 | renting a copy and returning it gives back the movie as it was |
| Entities.ReturnThenRent | movies-package/movies/entities.py:52-62 | returning a copy and renting it again gives back the movie as it was |
| Entities.RentTimesExact | movies-package/movies/entities.py:52-56 | as many rentals in a row succeed as there are copies available, each adding one to the rented count; one more fails with OutOfStock |
| Entities.RentWholeStock | movies-package/movies/tests/test_entitites.py:63-69 | a movie with nothing out can be rented exactly `stock` times, after which nothing is available and the next rental fails with OutOfStock |
| Entities.GetRentPrice | movies-package/movies/entities.py:64-67 | fails with ForbiddenOperation exactly when fewer than one day is asked for; otherwise the price is the daily price times the days |
| Entities.NewCustomer | movies-package/movies/entities.py:14-20 | a new customer has no rental history (`None`, not an empty list) and no active rental |
| Entities.SetActiveRental | movies-package/movies/entities.py:22-27 | fails with ForbiddenOperation exactly when a rental is already active; otherwise the given rental becomes active, the history is untouched, and finishing it gives back the customer as before |
| Entities.FinishActiveRental | movies-package/movies/entities.py:29-32 | fails with Operation exactly when no rental is active; otherwise the active rental is cleared, the history is untouched and nothing else changes |
| Entities.AtMostOneActiveRental | movies-package/movies/tests/test_entitites.py:30-34 | after one rental is opened a second is refused with ForbiddenOperation and the first stays active |
| Entities.Returned | movies-package/movies/entities.py:79-81 | a rental counts as returned exactly when a return date is recorded |
| Entities.NewRental | movies-package/movies/entities.py:70-77 | a rental starts unreturned with no late fee |
| Entities.SumRentPrices | movies-package/movies/entities.py:84-88 | adding up every movie's rent price gives 0 for no movies, ForbiddenOperation for fewer than one day, and otherwise the days times the sum of the daily prices |
| Entities.Amount | movies-package/movies/entities.py:83-88 | the amount is the days times the sum of the daily prices; it fails with ForbiddenOperation exactly when there are movies and fewer than one day |
| Entities.TotalAmount | movies-package/movies/tests/test_entitites.py:133-134 | the total is the amount plus the late fee, and fails exactly when the amount does |
| Entities.WholeDaysLate | movies-package/movies/entities.py:96-101 | the extra days are the whole days of overrun, truncated: `k` with `k * 86400 <= overrun < (k + 1) * 86400`, and 0 for a return that is not late |
| Entities.ReturnMoviesAsWritten | movies-package/movies/entities.py:90-103 | only Operation or ForbiddenOperation can be raised; a date before the rent date raises Operation and changes nothing; otherwise the return date is recorded first, and a return late by part of a day then raises ForbiddenOperation with only the return date changed; without an error the result agrees with `ReturnMovies` |
| Entities.ReturnMovies | movies-package/movies/entities.py:90-103 | fails with Operation exactly when the date is before the rent date; otherwise records the date, and when the return overruns by k >= 1 whole days the late fee is every movie's rent price for k days; otherwise the fee is unchanged |
| Entities.OnTimeReturn | movies-package/movies/entities.py:96-98 | a return within the contracted days charges no late fee, so the total equals the amount |
| Entities.LateReturn | movies-package/movies/tests/test_entitites.py:121-134 | a return `e` whole days late charges the sum of every movie's rent price for `e` days, and the total is the amount plus that fee |
| Entities.PartialDayLateRaises | movies-package/movies/entities.py:94-101 | one movie rented for a day and returned 25 hours later raises ForbiddenOperation after the return date is already set |
| Entities.UniformTotalPricePerDay | movies-package/movies/tests/test_entitites.py:94-95 | movies that all share one daily price cost, per day, that price times their number |
| Entities.FiveMoviesThreeDays | movies-package/movies/tests/test_entitites.py:89-97 | any five movies at 2.99 a day, rented for three days, cost 44.85 |
| MoviesBaseRepo.Probe | movies-package/movies/adapters/repos/base.py:15-16 | the probe stops at an unused id no lower than its start, and every integer it passed over is a key |
| MoviesBaseRepo.GenerateId | movies-package/movies/adapters/repos/base.py:13-17 | the new id is unused, at least one past the store's size, every integer between the two is already a key, and it is at most twice the size plus one |
| MoviesBaseRepo.GenerateIdSkipsLowGaps | movies-package/movies/adapters/repos/base.py:14-17 | with only id 5 stored the new id is 2 although 1 is free |
| MoviesBaseRepo.All | movies-package/movies/adapters/repos/base.py:19-27 | exactly the entries whose movie satisfies the condition, under the same ids; the whole store when there is no condition |
| MoviesBaseRepo.Get | movies-package/movies/adapters/repos/base.py:29-30 | the stored movie when the id is a key and None otherwise, never an error |
| MoviesBaseRepo.Add | movies-package/movies/adapters/repos/base.py:32-35 | a movie without an id gets the first non-key counting up from one past the store's size, and the store grows by one; a movie with an id is written at that id; either way only that key changes |
| MoviesBaseRepo.Remove | movies-package/movies/adapters/repos/base.py:37-38 | fails with a missing-key error exactly when the movie's id is not a key; otherwise only that key disappears and the store shrinks by one |
| MoviesBaseRepo.TwoAddsDistinctIds | movies-package/movies/adapters/repos/base.py:32-35 | two movies added without ids get different ids and the store grows by two |
| MoviesBaseRepo.AddThenGet | movies-package/movies/adapters/repos/base.py:29-35 | what was added is found under the id it was given |
| MoviesBaseRepo.AddThenRemove | movies-package/movies/adapters/repos/base.py:32-38 | adding a movie under a new id and removing it gives back the store as it was |
| MoviesBaseRepo.RemoveThenAdd | movies-package/movies/adapters/repos/base.py:32-38 | removing a stored movie and adding it back gives back the store as it was |
| MoviesBaseRepo.AllPartitions | movies-package/movies/adapters/repos/base.py:19-25 | the entries kept by a condition and those kept by its negation are disjoint and together make up the store |
| MoviesRepo.GenerateId | movies-package/movies/adapters/repository.py:11-15 | the new id is unused, at least one past the store's size, and every integer between the two is already a key |
| MoviesRepo.All | movies-package/movies/adapters/repository.py:17-25 | exactly the entries satisfying the condition, under the same ids; the whole store without a condition |
| MoviesRepo.Get | movies-package/movies/adapters/repository.py:27-28 | the stored movie or None, never an error |
| MoviesRepo.Add | movies-package/movies/adapters/repository.py:30-33 | an unset id becomes the first non-key counting up from one past the store's size, and the store grows by one; a set id is written in place; no other entry changes |
| MoviesRepo.Delete | movies-package/movies/adapters/repository.py:35-36 | fails with a missing-key error exactly when the id is not a key; otherwise removes only that key |
| Actions.ListAvailableMovies | movies-package/movies/actions.py:9-11 | exactly the stored movies whose stock differs from their rented count, under the same ids |
| Actions.AddMovie | movies-package/movies/actions.py:15-17 | the movie is stored under its own id, or, if it had none, under the first non-key counting up from one past the store's size; no other entry changes |
| Actions.ListedIffRentable | movies-package/movies/actions.py:9-11 | for a movie that keeps the stock invariant, being listed is the same as a rental succeeding |
| Actions.NothingRentedListsAll | movies-package/movies/tests/test_actions.py:13-15 | with no copy out and every stock non-zero, the listing is the whole store |
| Actions.EverythingRentedListsNothing | movies-package/movies/tests/test_actions.py:17-20 | with every copy out, the listing is empty |
| Actions.WriteOffBelowRentedIsListedButUnrentable | movies-package/movies/actions.py:9-11 | writing off 4 of 5 copies while 3 are out leaves a movie that is listed but cannot be rented |
| Actions.AddedMovieIsStored | movies-package/movies/tests/test_actions.py:22-28 | after adding a movie with an id it is found under that id |

## Left out

- The `settings` module that holds the current repository is not part of this model; the use cases take the repository as a parameter and `AddMovie` returns the new one.
- `adapters/repos/abstract.py` only declares the repository's method names; there is nothing in it to state or prove.
- Float prices: prices are integer cents, so sums and products are exact and no rounding is modelled.
- Dates and clocks: timestamps are integer seconds; sub-second precision and `datetime.now()` are not modelled.
- Object identity and aliasing: a rental holds copies of its movies and customer rather than shared references, so renting through one does not update the other, and `all()` without a condition returns the store as a value rather than the live dictionary.
- The Python failures caused by the defects listed above (a failing import, a keyword-only argument passed positionally, missing attributes, a missing constructor argument) are not modelled; the intended behaviour is.
- Python's lack of type checks: ids, counts and day numbers are integers and prices natural numbers; other argument types are not modelled.
- Entities.ReturnMoviesAsWritten: its agreement with `ReturnMovies` is stated only for rentals with at least one movie or no earlier late fee, because for an empty rental late by part of a day the source resets the fee to 0 where the corrected version keeps it.

## Findings

| source | as written | input that shows it | evidently intended | confidence | as-written member | corrected member |
|---|---|---|---|---|---|---|
| movies-package/movies/entities.py:94-103 | the return date is recorded, then a return late by less than one whole day asks `get_rent_price` for 0 days, which raises ForbiddenOperation with the date already set | one movie rented at time 0 for 1 day, returned at 90000 seconds (25 hours) | a return late by part of a day is not charged and the return succeeds | not executed; high | Entities.ReturnMoviesAsWritten | Entities.ReturnMovies |

The discrepancy is exhibited by `Entities.PartialDayLateRaises`. The rest of
the model (`OnTimeReturn`, `LateReturn`) uses the corrected `ReturnMovies`.
