/** The movie collection: a dictionary from title to movie that remembers
    insertion order, with its lookups, searches and iteration. */
module Collection {
  import opened Wrappers
  import opened Seqs
  import opened Text
  import opened Models

  /** The two ways `add_movie` and `remove_movie` fail. */
  datatype CollectionError = DuplicateTitle(title: string) | TitleNotFound(title: string)

  /** `keyword.lower() in title.lower()`: the lowercased keyword occurs at
      some position of the lowercased title. */
  predicate TitleMatches(keyword: string, m: Movie)
    ensures TitleMatches(keyword, m) <==> exists i :: OccursAt(Lower(keyword), Lower(m.title), i)
  {
    IsSubstringAt(Lower(keyword), Lower(m.title));
    IsSubstring(Lower(keyword), Lower(m.title))
  }

  /** `genre.lower() in movie.genre.lower()`: the lowercased keyword occurs
      at some position of the lowercased genre. */
  predicate GenreMatches(keyword: string, m: Movie)
    ensures GenreMatches(keyword, m) <==> exists i :: OccursAt(Lower(keyword), Lower(m.genre), i)
  {
    IsSubstringAt(Lower(keyword), Lower(m.genre));
    IsSubstring(Lower(keyword), Lower(m.genre))
  }

  /** `min_rating <= movie.rating <= max_rating`: both ends are inclusive,
      so a one-point range matches exactly that rating, and a range whose
      ends are swapped matches nothing. */
  predicate RatingInRange(minRating: real, maxRating: real, m: Movie)
    ensures minRating == maxRating ==> (RatingInRange(minRating, maxRating, m) <==> m.rating == minRating)
    ensures maxRating < minRating ==> !RatingInRange(minRating, maxRating, m)
  {
    minRating <= m.rating <= maxRating
  }

  /** The values stored under `ts`, in the order of `ts`. */
  function ValuesOf(ts: seq<string>, m: map<string, Movie>): seq<Movie>
    requires forall t :: t in ts ==> t in m
  {
    seq(|ts|, i requires 0 <= i < |ts| => m[ts[i]])
  }

  /** The dictionary `_movies`, as the order in which its keys were
      inserted (`titles`) and the key-to-value mapping (`movies`). */
  class MovieCollection {
    var titles: seq<string>
    var movies: map<string, Movie>

    /** Keys are unique, the order lists exactly the keys, and every key is
        the title of the movie stored under it. */
    ghost predicate Valid()
      reads this
    {
      NoDup(titles) &&
      movies.Keys == Elems(titles) &&
      forall t :: t in movies ==> movies[t].title == t
    }

    /** `MovieCollection()`: an empty collection. */
    constructor ()
      ensures Valid()
      ensures titles == [] && movies == map[]
    {
      titles, movies := [], map[];
    }

    /** `get_all_movies()` (and `list(self._movies.values())`): one movie
        per key, in insertion order. `AllMoviesExact` adds that these are
        exactly the stored movies, each once. */
    function GetAllMovies(): (r: seq<Movie>)
      reads this
      requires Valid()
      ensures |r| == |titles|
      ensures forall i :: 0 <= i < |r| ==> r[i].title == titles[i]
    {
      ValuesOf(titles, movies)
    }

    /** `len(collection)`: the number of keys, which is also the length of
        the insertion order. */
    function Len(): (n: nat)
      reads this
      requires Valid()
      ensures n == |titles| == |GetAllMovies()|
    {
      ElemsCard(titles);
      |movies|
    }

    /** `title in collection`. */
    function Contains(title: string): (b: bool)
      reads this
      requires Valid()
      ensures b <==> title in titles
    {
      title in movies
    }

    /** `get_movie(title)`: the movie stored under `title`, `None` on a miss. */
    function GetMovie(title: string): (r: Option<Movie>)
      reads this
      requires Valid()
      ensures r.None? <==> !Contains(title)
      ensures r.Some? ==> r.value.title == title && r.value in GetAllMovies()
    {
      AllMoviesExact(this);
      if title in movies then Some(movies[title]) else None
    }

    /** `search_by_title(keyword)`: in insertion order, exactly the movies
        whose lowercased title contains the lowercased keyword. */
    function SearchByTitle(keyword: string): (r: seq<Movie>)
      reads this
      requires Valid()
      ensures IsSubsequence(r, GetAllMovies())
      ensures forall m :: m in r <==> m in GetAllMovies() && TitleMatches(keyword, m)
    {
      var all := GetAllMovies();
      var p := (m: Movie) => TitleMatches(keyword, m);
      FilterMembers(all, p);
      FilterIsSubsequence(all, p);
      Filter(all, p)
    }

    /** `search_by_year(year)`: in insertion order, exactly the movies of
        that year. */
    function SearchByYear(year: int): (r: seq<Movie>)
      reads this
      requires Valid()
      ensures IsSubsequence(r, GetAllMovies())
      ensures forall m :: m in r <==> m in GetAllMovies() && m.year == year
    {
      var all := GetAllMovies();
      var p := (m: Movie) => m.year == year;
      FilterMembers(all, p);
      FilterIsSubsequence(all, p);
      Filter(all, p)
    }

    /** `search_by_genre(genre)`: in insertion order, exactly the movies
        whose lowercased genre contains the lowercased keyword. */
    function SearchByGenre(keyword: string): (r: seq<Movie>)
      reads this
      requires Valid()
      ensures IsSubsequence(r, GetAllMovies())
      ensures forall m :: m in r <==> m in GetAllMovies() && GenreMatches(keyword, m)
    {
      var all := GetAllMovies();
      var p := (m: Movie) => GenreMatches(keyword, m);
      FilterMembers(all, p);
      FilterIsSubsequence(all, p);
      Filter(all, p)
    }

    /** `search_by_rating(min_rating, max_rating)`: in insertion order,
        exactly the movies rated within the closed range. */
    function SearchByRating(minRating: real, maxRating: real): (r: seq<Movie>)
      reads this
      requires Valid()
      ensures IsSubsequence(r, GetAllMovies())
      ensures forall m :: m in r <==> m in GetAllMovies() && RatingInRange(minRating, maxRating, m)
    {
      var all := GetAllMovies();
      var p := (m: Movie) => RatingInRange(minRating, maxRating, m);
      FilterMembers(all, p);
      FilterIsSubsequence(all, p);
      Filter(all, p)
    }

    /** `add_movie(movie)`: fails, changing nothing, when the title is
        already a key; otherwise stores the movie under its title, last in
        insertion order. */
    method AddMovie(movie: Movie) returns (r: Outcome<CollectionError>)
      requires Valid()
      modifies this
      ensures Valid()
      ensures r == (if old(Contains(movie.title)) then Fail(DuplicateTitle(movie.title)) else Pass)
      ensures r.Fail? ==> titles == old(titles) && movies == old(movies)
      ensures r.Pass? ==> titles == old(titles) + [movie.title]
      ensures r.Pass? ==> movies == old(movies)[movie.title := movie]
      ensures r.Pass? ==> Len() == old(Len()) + 1
      ensures r.Pass? ==> GetMovie(movie.title) == Some(movie)
      ensures r.Pass? ==> GetAllMovies() == old(GetAllMovies()) + [movie]
    {
      if movie.title in movies {
        return Fail(DuplicateTitle(movie.title));
      }
      ghost var before := GetAllMovies();
      titles := titles + [movie.title];
      movies := movies[movie.title := movie];
      assert Elems(titles) == Elems(old(titles)) + {movie.title};
      assert Valid();
      assert GetAllMovies() == before + [movie];
      r := Pass;
    }

    /** `remove_movie(title)`: fails, changing nothing, when the title is
        not a key; otherwise deletes exactly that key, keeping the order of
        the others. */
    method RemoveMovie(title: string) returns (r: Outcome<CollectionError>)
      requires Valid()
      modifies this
      ensures Valid()
      ensures r == (if old(Contains(title)) then Pass else Fail(TitleNotFound(title)))
      ensures r.Fail? ==> titles == old(titles) && movies == old(movies)
      ensures r.Pass? ==> titles == Without(old(titles), title)
      ensures r.Pass? ==> movies == old(movies) - {title}
      ensures r.Pass? ==> Len() == old(Len()) - 1
      ensures r.Pass? ==> !Contains(title)
    {
      if title !in movies {
        return Fail(TitleNotFound(title));
      }
      WithoutLength(titles, title);
      WithoutMembers(titles, title);
      titles := Without(titles, title);
      movies := movies - {title};
      assert Elems(titles) == Elems(old(titles)) - {title};
      r := Pass;
    }

    /** `iter(collection)`: a fresh cursor over a copy of the values, so that
        later changes to the collection do not reach it. */
    method Iter() returns (it: MovieCollectionIterator)
      requires Valid()
      ensures fresh(it) && it.Valid()
      ensures it.movies == GetAllMovies() && it.index == 0
    {
      it := new MovieCollectionIterator(GetAllMovies());
    }
  }

  /** `list(collection)`: a full pass of a fresh cursor yields exactly the
      stored movies, in insertion order. */
  method ToList(c: MovieCollection) returns (out: seq<Movie>)
    requires c.Valid()
    ensures out == c.GetAllMovies()
  {
    var it := c.Iter();
    out := Drain(it);
  }

  /** The value list holds exactly the stored movies, and none twice. */
  lemma AllMoviesExact(c: MovieCollection)
    requires c.Valid()
    ensures forall m: Movie :: m in c.GetAllMovies() <==> m.title in c.movies && c.movies[m.title] == m
    ensures NoDup(c.GetAllMovies())
  {
    var r := c.GetAllMovies();
    forall m: Movie | m.title in c.movies && c.movies[m.title] == m ensures m in r {
      var i :| 0 <= i < |c.titles| && c.titles[i] == m.title;
      assert r[i] == m;
    }
  }

  /** The search results are determined by their contracts: any
      order-preserving selection of exactly the matching movies is the
      result of `search_by_title`. */
  lemma SearchByTitleUnique(c: MovieCollection, keyword: string, r: seq<Movie>)
    requires c.Valid()
    requires IsSubsequence(r, c.GetAllMovies())
    requires forall m :: m in r <==> m in c.GetAllMovies() && TitleMatches(keyword, m)
    ensures r == c.SearchByTitle(keyword)
  {
    AllMoviesExact(c);
    SelectionUnique(r, c.SearchByTitle(keyword), c.GetAllMovies());
  }

  /** As `SearchByTitleUnique`, for `search_by_year`. */
  lemma SearchByYearUnique(c: MovieCollection, year: int, r: seq<Movie>)
    requires c.Valid()
    requires IsSubsequence(r, c.GetAllMovies())
    requires forall m :: m in r <==> m in c.GetAllMovies() && m.year == year
    ensures r == c.SearchByYear(year)
  {
    AllMoviesExact(c);
    SelectionUnique(r, c.SearchByYear(year), c.GetAllMovies());
  }

  /** As `SearchByTitleUnique`, for `search_by_genre`. */
  lemma SearchByGenreUnique(c: MovieCollection, keyword: string, r: seq<Movie>)
    requires c.Valid()
    requires IsSubsequence(r, c.GetAllMovies())
    requires forall m :: m in r <==> m in c.GetAllMovies() && GenreMatches(keyword, m)
    ensures r == c.SearchByGenre(keyword)
  {
    AllMoviesExact(c);
    SelectionUnique(r, c.SearchByGenre(keyword), c.GetAllMovies());
  }

  /** As `SearchByTitleUnique`, for `search_by_rating`. */
  lemma SearchByRatingUnique(c: MovieCollection, minRating: real, maxRating: real, r: seq<Movie>)
    requires c.Valid()
    requires IsSubsequence(r, c.GetAllMovies())
    requires forall m :: m in r <==> m in c.GetAllMovies() && RatingInRange(minRating, maxRating, m)
    ensures r == c.SearchByRating(minRating, maxRating)
  {
    AllMoviesExact(c);
    SelectionUnique(r, c.SearchByRating(minRating, maxRating), c.GetAllMovies());
  }

  /** The empty keyword matches every title and every genre: both searches
      then return all movies, in insertion order. */
  lemma SearchEmptyKeyword(c: MovieCollection)
    requires c.Valid()
    ensures c.SearchByTitle("") == c.GetAllMovies()
    ensures c.SearchByGenre("") == c.GetAllMovies()
  {
    var all := c.GetAllMovies();
    AllMoviesExact(c);
    assert Lower("") == "";
    forall m: Movie ensures TitleMatches("", m) && GenreMatches("", m) {
      EmptyIsSubstring(Lower(m.title));
      EmptyIsSubstring(Lower(m.genre));
    }
    assert IsSubsequence(all, all) by {
      FilterAll(all, (m: Movie) => true);
      FilterIsSubsequence(all, (m: Movie) => true);
    }
    SelectionUnique(c.SearchByTitle(""), all, all);
    SelectionUnique(c.SearchByGenre(""), all, all);
  }

  /** Searching an empty collection finds nothing. */
  lemma SearchEmptyCollection(c: MovieCollection, keyword: string, year: int, minRating: real, maxRating: real)
    requires c.Valid() && c.Len() == 0
    ensures c.SearchByTitle(keyword) == [] && c.SearchByYear(year) == []
    ensures c.SearchByGenre(keyword) == [] && c.SearchByRating(minRating, maxRating) == []
  {
  }

  /** The keyword's case does not matter: searching with it lowercased
      gives the same movies. */
  lemma SearchIgnoresKeywordCase(c: MovieCollection, keyword: string)
    requires c.Valid()
    ensures c.SearchByTitle(Lower(keyword)) == c.SearchByTitle(keyword)
    ensures c.SearchByGenre(Lower(keyword)) == c.SearchByGenre(keyword)
  {
    LowerIdempotent(keyword);
    AllMoviesExact(c);
    SelectionUnique(c.SearchByTitle(Lower(keyword)), c.SearchByTitle(keyword), c.GetAllMovies());
    SelectionUnique(c.SearchByGenre(Lower(keyword)), c.SearchByGenre(keyword), c.GetAllMovies());
  }

  /** The titles of `ms`, in order. */
  function TitlesOf(ms: seq<Movie>): seq<string> {
    seq(|ms|, i requires 0 <= i < |ms| => ms[i].title)
  }

  /** With distinct titles, the next movie's title is none of the titles
      before it. */
  lemma NextTitleIsNew(ms: seq<Movie>, k: nat)
    requires NoDup(TitlesOf(ms)) && k < |ms|
    ensures ms[k].title !in TitlesOf(ms[..k])
  {
    var ts, before := TitlesOf(ms), TitlesOf(ms[..k]);
    forall i | 0 <= i < k ensures before[i] != ms[k].title {
      assert before[i] == ts[i] && ts[k] == ms[k].title;
    }
  }

  /** The insertion order is the titles of the value list. */
  lemma TitlesInOrder(c: MovieCollection)
    requires c.Valid()
    ensures c.titles == TitlesOf(c.GetAllMovies())
  {
  }

  /** A collection holding the first `k` of `ms`, all titles distinct, does
      not yet contain the title of the next one. */
  lemma NotYetAdded(c: MovieCollection, ms: seq<Movie>, k: nat)
    requires NoDup(TitlesOf(ms)) && k < |ms|
    requires c.Valid() && c.GetAllMovies() == ms[..k]
    ensures !c.Contains(ms[k].title)
  {
    NextTitleIsNew(ms, k);
    TitlesInOrder(c);
  }

  /** Fills a new collection by adding `ms` one after another, as a caller
      does with distinct titles: every add succeeds, so the collection holds
      exactly `ms`, in that order, and its size is the number of adds. */
  method FromMovies(ms: seq<Movie>) returns (c: MovieCollection)
    requires NoDup(TitlesOf(ms))
    ensures c.Valid()
    ensures c.GetAllMovies() == ms && c.Len() == |ms|
  {
    c := new MovieCollection();
    var k := 0;
    while k < |ms|
      invariant 0 <= k <= |ms|
      invariant c.Valid()
      invariant c.GetAllMovies() == ms[..k]
    {
      AddNext(c, ms, k);
      k := k + 1;
    }
    assert ms[..k] == ms;
  }

  /** One step of `FromMovies`: the next movie's add succeeds and extends
      the collection by that movie. */
  method AddNext(c: MovieCollection, ms: seq<Movie>, k: nat)
    requires NoDup(TitlesOf(ms)) && k < |ms|
    requires c.Valid() && c.GetAllMovies() == ms[..k]
    modifies c
    ensures c.Valid() && c.GetAllMovies() == ms[..k + 1]
  {
    NotYetAdded(c, ms, k);
    var r := c.AddMovie(ms[k]);
    assert ms[..k + 1] == ms[..k] + [ms[k]];
  }

  /** A pass over `iter(collection)` sees the collection as it was when the
      cursor was made, whatever is added or removed afterwards. */
  method IterateWhileChanging(c: MovieCollection, added: Movie, removed: string) returns (out: seq<Movie>)
    requires c.Valid()
    modifies c
    ensures c.Valid()
    ensures out == old(c.GetAllMovies())
  {
    var it := c.Iter();
    var a := c.AddMovie(added);
    var b := c.RemoveMovie(removed);
    out := Drain(it);
  }
}
