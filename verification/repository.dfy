/**
  The second in-memory movie repository. It keeps the same mapping and obeys
  the same rules as `MoviesBaseRepo`, under which every operation here is
  defined; only the deletion is called `Delete` instead of `Remove`.
 */
module MoviesRepo {
  import opened Exceptions
  import opened Entities
  import Base = MoviesBaseRepo

  type Repo = Base.Repo

  /** A fresh id: unused, at least one past the size of the store, and every
      integer between the two already taken. */
  function GenerateId(movies: Repo): (id: int)
    ensures id !in movies
    ensures id >= |movies| + 1
    ensures forall k :: |movies| + 1 <= k < id ==> k in movies
  {
    Base.GenerateId(movies)
  }

  /** Exactly the movies satisfying `condition`, under their own ids; the
      whole store without a condition. */
  function All(movies: Repo, condition: Option<Movie -> bool>): (r: Repo)
    ensures forall k :: k in r <==> k in movies && (condition.None? || condition.value(movies[k]))
    ensures forall k :: k in r ==> r[k] == movies[k]
    ensures condition.None? ==> r == movies
  {
    Base.All(movies, condition)
  }

  /** The movie under `id`, or `None`. */
  function Get(movies: Repo, id: int): (r: Option<Movie>)
    ensures r.Some? <==> id in movies
    ensures r.Some? ==> r.value == movies[id]
  {
    Base.Get(movies, id)
  }

  /** Stores `movie` under its own id, or under a fresh one when it has none;
      no other entry changes. */
  function Add(movies: Repo, movie: Movie): (a: Base.Added)
    ensures movie.id.Some? ==> a.id == movie.id.value
    ensures movie.id.None? ==> a.id !in movies && a.id >= |movies| + 1 && |a.movies| == |movies| + 1
    ensures movie.id.None? ==> forall k :: |movies| + 1 <= k < a.id ==> k in movies
    ensures a.movies.Keys == movies.Keys + {a.id}
    ensures a.movies[a.id] == movie.(id := Some(a.id))
    ensures forall k :: k in movies && k != a.id ==> a.movies[k] == movies[k]
  {
    Base.Add(movies, movie)
  }

  /** Deletes the entry under the movie's id, which must be a key. */
  function Delete(movies: Repo, movie: Movie): (r: Result<Repo>)
    ensures r.Err? <==> movie.id.None? || movie.id.value !in movies
    ensures r.Err? ==> r.error == KeyError
    ensures r.Ok? ==> r.value.Keys == movies.Keys - {movie.id.value}
    ensures r.Ok? ==> forall k :: k in r.value ==> r.value[k] == movies[k]
  {
    Base.Remove(movies, movie)
  }
}
