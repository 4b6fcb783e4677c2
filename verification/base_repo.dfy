/**
  The in-memory movie repository: a mapping from integer ids to movies, with
  id generation, filtering, lookup, insertion and removal.
 */
module MoviesBaseRepo {
  import opened Exceptions
  import opened Entities

  /** The store: every movie under the id it is known by. */
  type Repo = map<int, Movie>

  /** What an insertion leaves behind: the new store and the id the movie now carries. */
  datatype Added = Added(movies: Repo, id: int)

  /** Keys of `movies` at or above `from`: the ids a probe starting there may still hit. */
  function KeysFrom(movies: Repo, from: int): set<int> {
    set k | k in movies && k >= from
  }

  /** Each step of the probe leaves one key fewer ahead of it. */
  lemma KeysFromShrinks(movies: Repo, from: int)
    requires from in movies
    ensures |KeysFrom(movies, from + 1)| < |KeysFrom(movies, from)|
  {
    assert KeysFrom(movies, from + 1) == KeysFrom(movies, from) - {from};
  }

  /** The first integer at or above `from` that is not yet an id. */
  function Probe(movies: Repo, from: int): (id: int)
    ensures id !in movies && id >= from
    ensures forall k :: from <= k < id ==> k in movies
    decreases |KeysFrom(movies, from)|
  {
    if from in movies then
      KeysFromShrinks(movies, from);
      Probe(movies, from + 1)
    else from
  }

  /** A set that holds every integer of `[lo, hi)` has at least `hi - lo` elements. */
  lemma {:induction false} IntervalFits(keys: set<int>, lo: int, hi: int)
    requires lo <= hi
    requires forall k :: lo <= k < hi ==> k in keys
    ensures hi - lo <= |keys|
    decreases hi - lo
  {
    if lo < hi {
      var rest := keys - {hi - 1};
      assert keys * {hi - 1} == {hi - 1};
      IntervalFits(rest, lo, hi - 1);
    }
  }

  /** A fresh id: probing upwards from one past the number of stored movies,
      the first integer that is not a key. Every integer skipped on the way is
      a key, so the probe never passes twice the store's size. */
  function GenerateId(movies: Repo): (id: int)
    ensures id !in movies
    ensures id >= |movies| + 1
    ensures forall k :: |movies| + 1 <= k < id ==> k in movies
    ensures id <= 2 * |movies| + 1
  {
    var id := Probe(movies, |movies| + 1);
    IntervalFits(movies.Keys, |movies| + 1, id);
    id
  }

  /** The probe starts at the size of the store, so a free id below it is
      passed over: with only id 5 taken, the new id is 2, though 1 is free. */
  lemma GenerateIdSkipsLowGaps(m: Movie)
    ensures 1 !in map[5 := m]
    ensures GenerateId(map[5 := m]) == 2
  {
  }

  /** The movies satisfying `condition` under their own ids; all of them when
      there is no condition. */
  function All(movies: Repo, condition: Option<Movie -> bool>): (r: Repo)
    ensures forall k :: k in r <==> k in movies && (condition.None? || condition.value(movies[k]))
    ensures forall k :: k in r ==> r[k] == movies[k]
    ensures condition.None? ==> r == movies
  {
    if condition.Some? then
      map k | k in movies && condition.value(movies[k]) :: movies[k]
    else movies
  }

  /** The movie stored under `id`, or `None` when there is none; never fails. */
  function Get(movies: Repo, id: int): (r: Option<Movie>)
    ensures r.Some? <==> id in movies
    ensures r.Some? ==> r.value == movies[id]
  {
    if id in movies then Some(movies[id]) else None
  }

  /** Stores `movie`: a movie without an id first gets a fresh one; a movie
      with an id is written under it, replacing whatever was there. */
  function Add(movies: Repo, movie: Movie): (a: Added)
    ensures movie.id.Some? ==> a.id == movie.id.value
    ensures movie.id.None? ==> a.id !in movies && a.id >= |movies| + 1
    ensures movie.id.None? ==> forall k :: |movies| + 1 <= k < a.id ==> k in movies
    ensures a.movies.Keys == movies.Keys + {a.id}
    ensures a.movies[a.id] == movie.(id := Some(a.id))
    ensures forall k :: k in movies && k != a.id ==> a.movies[k] == movies[k]
    ensures |a.movies| == if a.id in movies then |movies| else |movies| + 1
  {
    var id := if movie.id.None? then GenerateId(movies) else movie.id.value;
    var stored := movie.(id := Some(id));
    Added(movies[id := stored], id)
  }

  /** Deletes the entry under the movie's id; an id that is not a key (or no
      id at all) is a missing-key error. */
  function Remove(movies: Repo, movie: Movie): (r: Result<Repo>)
    ensures r.Err? <==> movie.id.None? || movie.id.value !in movies
    ensures r.Err? ==> r.error == KeyError
    ensures r.Ok? ==> r.value.Keys == movies.Keys - {movie.id.value}
    ensures r.Ok? ==> |r.value| == |movies| - 1
    ensures r.Ok? ==> forall k :: k in r.value ==> r.value[k] == movies[k]
  {
    if movie.id.None? || movie.id.value !in movies then Err(KeyError)
    else Ok(movies - {movie.id.value})
  }

  /** Two movies added without ids get two different ids, and both are stored. */
  lemma TwoAddsDistinctIds(movies: Repo, first: Movie, second: Movie)
    requires first.id.None? && second.id.None?
    ensures var a := Add(movies, first);
      var b := Add(a.movies, second);
      && a.id != b.id
      && a.id in b.movies && b.id in b.movies
      && |b.movies| == |movies| + 2
  {
  }

  /** What was added can be looked up under the id it was given. */
  lemma AddThenGet(movies: Repo, movie: Movie)
    ensures var a := Add(movies, movie);
      Get(a.movies, a.id) == Some(movie.(id := Some(a.id)))
  {
  }

  /** Adding a movie under a new id and removing it again restores the store. */
  lemma AddThenRemove(movies: Repo, movie: Movie)
    requires movie.id.None? || movie.id.value !in movies
    ensures var a := Add(movies, movie);
      Remove(a.movies, movie.(id := Some(a.id))) == Ok(movies)
  {
    var a := Add(movies, movie);
    assert a.movies - {a.id} == movies;
  }

  /** Removing a stored movie and adding it back restores the store. */
  lemma RemoveThenAdd(movies: Repo, id: int)
    requires id in movies && movies[id].id == Some(id)
    ensures Remove(movies, movies[id]).Ok?
    ensures Add(Remove(movies, movies[id]).value, movies[id]).movies == movies
  {
    var removed := Remove(movies, movies[id]).value;
    assert removed[id := movies[id]] == movies;
  }

  /** A condition and its negation split the store into two disjoint parts. */
  lemma AllPartitions(movies: Repo, condition: Movie -> bool)
    ensures var yes := All(movies, Some(condition));
      var no := All(movies, Some((m: Movie) => !condition(m)));
      && yes.Keys !! no.Keys
      && yes.Keys + no.Keys == movies.Keys
  {
  }
}
