/** The movie record and the cursor that walks a snapshot of a collection. */
module Models {
  import opened Wrappers

  /** A movie; its title is the key under which a collection stores it.
      The rating is a real number: only `<=` comparisons are ever made on it. */
  datatype Movie = Movie(title: string, year: int, director: string, genre: string, rating: real)

  /** `Movie(title, year, director, genre, rating)`: the record keeps its five
      arguments as given, with no validation. */
  function NewMovie(title: string, year: int, director: string, genre: string, rating: real): (m: Movie)
    ensures m.title == title && m.year == year && m.director == director
    ensures m.genre == genre && m.rating == rating
  {
    Movie(title, year, director, genre, rating)
  }

  /** A movie is rebuilt exactly from its five fields. */
  lemma NewMovieFromFields(m: Movie)
    ensures NewMovie(m.title, m.year, m.director, m.genre, m.rating) == m
  {
  }

  /** A forward cursor over a list of movies. The list is fixed when the
      cursor is made; only the position moves. */
  class MovieCollectionIterator {
    const movies: seq<Movie>
    var index: nat

    /** The position never passes the end of the list. */
    ghost predicate Valid()
      reads this
    {
      index <= |movies|
    }

    /** The movies not yet returned, in order. */
    ghost function Remaining(): seq<Movie>
      reads this
      requires Valid()
    {
      movies[index..]
    }

    constructor (movies: seq<Movie>)
      ensures Valid()
      ensures this.movies == movies && index == 0
      ensures Remaining() == movies
    {
      this.movies := movies;
      index := 0;
    }

    /** `__next__`: the movie at the position, which then moves one step;
        at the end, `None` (Python's `StopIteration`) and the position stays. */
    method Next() returns (r: Option<Movie>)
      requires Valid()
      modifies this
      ensures Valid()
      ensures old(index) < |movies| ==> r == Some(movies[old(index)]) && index == old(index) + 1
      ensures old(index) == |movies| ==> r == None && index == old(index)
      ensures old(Remaining()) == (if r.Some? then [r.value] else []) + Remaining()
    {
      if index < |movies| {
        r := Some(movies[index]);
        index := index + 1;
      } else {
        r := None;
      }
    }
  }

  /** Consumes a cursor the way `list(...)` or a `for` loop does: calls
      `Next` until it signals the end, collecting what it returns. */
  method Drain(it: MovieCollectionIterator) returns (out: seq<Movie>)
    requires it.Valid()
    modifies it
    ensures it.Valid() && it.index == |it.movies|
    ensures out == old(it.Remaining())
  {
    out := [];
    var next := it.Next();
    while next.Some?
      invariant it.Valid()
      invariant next.None? ==> it.index == |it.movies|
      invariant old(it.Remaining()) == out + (if next.Some? then [next.value] else []) + it.Remaining()
      decreases |it.movies| - it.index, next.Some?
    {
      out := out + [next.value];
      next := it.Next();
    }
  }
}
