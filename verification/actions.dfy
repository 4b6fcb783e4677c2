/**
  The two use cases of the catalogue. The repository they work on is passed in
  (and, for an insertion, handed back) instead of being read from a global.
 */
module Actions {
  import opened Exceptions
  import opened Entities
  import Base = MoviesBaseRepo
  import MoviesRepo

  /** The availability filter: a movie is listed when its available count is
      non-zero, the way a Python integer is true. */
  predicate IsListed(m: Movie) {
    Available(m) != 0
  }

  /** The movies a customer may choose from, under their ids; the store itself
      is not changed. */
  function ListAvailableMovies(movies: Base.Repo): (r: Base.Repo)
    ensures forall k :: k in r <==> k in movies && movies[k].stock != movies[k].rented
    ensures forall k :: k in r ==> r[k] == movies[k]
  {
    MoviesRepo.All(movies, Some(IsListed))
  }

  /** Adds a movie to the catalogue; it ends up stored under its id (a fresh
      one if it had none). */
  function AddMovie(movies: Base.Repo, movie: Movie): (a: Base.Added)
    ensures a.movies.Keys == movies.Keys + {a.id}
    ensures movie.id.Some? ==> a.id == movie.id.value && a.movies[a.id] == movie
    ensures movie.id.None? ==> a.id !in movies && a.movies[a.id] == movie.(id := Some(a.id))
    ensures movie.id.None? ==> forall k :: |movies| + 1 <= k < a.id ==> k in movies
    ensures forall k :: k in movies && k != a.id ==> a.movies[k] == movies[k]
  {
    MoviesRepo.Add(movies, movie)
  }

  /** For movies that keep the stock invariant, being listed and being
      rentable are the same thing. */
  lemma ListedIffRentable(movies: Base.Repo, id: int)
    requires id in movies && Valid(movies[id])
    ensures id in ListAvailableMovies(movies) <==> RentMovie(movies[id]).Ok?
  {
  }

  /** When no copy of any movie is out (and every movie has stock), everything is listed. */
  lemma NothingRentedListsAll(movies: Base.Repo)
    requires forall k :: k in movies ==> movies[k].rented == 0 && movies[k].stock != 0
    ensures ListAvailableMovies(movies) == movies
  {
    var listed := ListAvailableMovies(movies);
    forall k | k in movies
      ensures k in listed
    {
      assert movies[k].stock != movies[k].rented;
    }
    assert listed.Keys == movies.Keys;
  }

  /** When every copy of every movie is out, nothing is listed. */
  lemma EverythingRentedListsNothing(movies: Base.Repo)
    requires forall k :: k in movies ==> movies[k].rented == movies[k].stock
    ensures ListAvailableMovies(movies) == map[]
  {
    var listed := ListAvailableMovies(movies);
    forall k | k in movies
      ensures k !in listed
    {
      assert movies[k].stock == movies[k].rented;
    }
    assert listed.Keys == {};
  }

  /** Writing off copies that are still rented out breaks the stock invariant,
      and the listing then offers a movie that cannot be rented: 5 copies,
      3 out, 4 written off. */
  lemma WriteOffBelowRentedIsListedButUnrentable(id: int)
    ensures var m := RemoveFromInventory(Movie(Some(id), "", 5, 3, 0), 4);
      var listed := ListAvailableMovies(map[id := m]);
      && !Valid(m)
      && id in listed
      && RentMovie(m) == Err(OutOfStock)
  {
  }

  /** Adding a movie that has an id makes it retrievable under that id, next to
      a listing that agrees with the catalogue. */
  lemma AddedMovieIsStored(movies: Base.Repo, movie: Movie)
    requires movie.id.Some?
    ensures MoviesRepo.Get(AddMovie(movies, movie).movies, movie.id.value) == Some(movie)
    ensures movie.id.value in ListAvailableMovies(AddMovie(movies, movie).movies) <==> IsListed(movie)
  {
  }
}
