# Movie collection manager, modelled in Dafny

This project models an in-memory catalogue of movies. The catalogue is one
Python class, `MovieCollection`. It wraps a dictionary from title to
`Movie`, and the dictionary remembers the order in which keys were inserted.
On top of the dictionary the class offers these operations:

- add a movie (fails on a duplicate title);
- remove a movie (fails on an absent title);
- look a movie up by title (returns `None` on a miss);
- four linear-scan searches: title substring, exact year, genre substring and rating range;
- list all movies, count them and test membership;
- iterate. Iteration hands a copy of the values to a `MovieCollectionIterator`, an index-based cursor.

Files:

- `wrappers.dfy`: `Option` (Python's `Optional`) and `Outcome`, the result of an operation that either succeeds or raises.
- `seqs.dfy`: `Filter`, the model of a list comprehension with a condition. Also the independent reference definition `IsSubsequence`, and the lemmas that tie the two together. The main one says a filter over a duplicate-free sequence is the *only* order-preserving selection of exactly the matching elements.
- `text.dfy`: lowercasing, with `str.lower` restricted to ASCII. The substring test `keyword in text`, defined recursively and proved equal to "occurs at some position".
- `models.py` → `models.dfy`: the `Movie` record as a datatype. The iterator as a class with an immutable list and a mutable `index`. `Drain` is the consumer of the iterator protocol (what `list(...)` and `for` do).
- `collection.py` → `collection.dfy`: `MovieCollection` as a class with two fields:
  - `titles`: the insertion order of the keys;
  - `movies`: the key-to-movie map.

  `Valid()` is the class invariant: keys are unique, `titles` lists exactly the keys, and every key is the title of its movie. Add and remove are methods, and the queries are functions.

Errors are values. `AddMovie` returns `Fail(DuplicateTitle(t))` and
`RemoveMovie` returns `Fail(TitleNotFound(t))` where the source raises
`ValueError`. The iterator's `StopIteration` becomes `None`.

## Model

| member | source | states |
|---|---|---|
| `Models.NewMovie` | models.py:4-9 | each of the five fields holds the argument given for it, unvalidated |
| `Models.NewMovieFromFields` | models.py:4-9 | a movie is rebuilt exactly from its five fields (the constructor is inverted by the field reads) |
| `Models.MovieCollectionIterator.constructor` | models.py:12-14 | a new cursor holds the given list and starts at index 0 |
| `Models.MovieCollectionIterator.Next` | models.py:16-21 | below the end: returns the movie at the index and increments the index by exactly one. At the end: signals stop and leaves the index unchanged. The index stays within `[0, len]` and the list is never changed |
| `Models.Drain` | models.py:16-21 | calling `__next__` until it stops yields the not-yet-returned movies in list order, so the k-th successful call returns `movies[k]` |
| `Collection.MovieCollection.constructor` | collection.py:5-6 | a new collection is empty and satisfies the invariant |
| `Collection.MovieCollection.AddMovie` | collection.py:8-12 | an already present title fails with `DuplicateTitle` and changes nothing. Otherwise the invariant is kept, the title is appended last in order, the map gains exactly that entry, size grows by one, `GetMovie(title)` returns the movie and the value list gains it at the end |
| `Collection.MovieCollection.RemoveMovie` | collection.py:14-18 | an absent title fails with `TitleNotFound` and changes nothing. Otherwise the invariant is kept, exactly that key leaves the map and the order (the others keep their relative order), size drops by one and the title is no longer contained |
| `Collection.MovieCollection.GetMovie` | collection.py:20-22 | returns `None` exactly when the title is not contained. A hit is the stored movie whose title is the key asked for |
| `Collection.MovieCollection.SearchByTitle` | collection.py:24-29 | the result keeps insertion order and holds exactly the stored movies whose lowercased title contains the lowercased keyword |
| `Collection.MovieCollection.SearchByYear` | collection.py:31-33 | the result keeps insertion order and holds exactly the stored movies whose year equals the argument |
| `Collection.MovieCollection.SearchByGenre` | collection.py:35-40 | the result keeps insertion order and holds exactly the stored movies whose lowercased genre contains the lowercased keyword |
| `Collection.MovieCollection.SearchByRating` | collection.py:42-47 | the result keeps insertion order and holds exactly the stored movies with `min <= rating <= max`, both ends inclusive |
| `Collection.MovieCollection.GetAllMovies` | collection.py:49-51 | one movie per key, in insertion order: the i-th movie has the i-th inserted title |
| `Collection.AllMoviesExact` | collection.py:49-51 | the value list holds exactly the stored movies and none twice |
| `Collection.MovieCollection.Iter` | collection.py:53-55 | a fresh cursor at index 0 over a copy of the values in insertion order |
| `Collection.MovieCollection.Len` | collection.py:57-59 | the number of keys equals the length of the insertion order and of the value list |
| `Collection.MovieCollection.Contains` | collection.py:61-63 | true exactly when the title is one of the inserted and not removed keys |
| `Collection.SearchByTitleUnique` | collection.py:24-29 | any order-preserving selection of exactly the matching movies equals the title search, so the search's contract determines its result |
| `Collection.SearchByYearUnique` | collection.py:31-33 | the same uniqueness for the year search |
| `Collection.SearchByGenreUnique` | collection.py:35-40 | the same uniqueness for the genre search |
| `Collection.SearchByRatingUnique` | collection.py:42-47 | the same uniqueness for the rating search |
| `Collection.SearchEmptyKeyword` | tests.py:101-104 | an empty keyword makes the title and genre searches return every movie, in insertion order |
| `Collection.SearchEmptyCollection` | tests.py:82-85 | every search of an empty collection returns an empty list |
| `Collection.SearchIgnoresKeywordCase` | collection.py:24-40 | lowercasing the keyword first does not change the title or genre search |
| `Collection.FromMovies` | tests.py:25-33 | adding movies with distinct titles one by one always succeeds. Afterwards the collection holds exactly those movies in that order, and its size is the number of adds |
| `Collection.ToList` | tests.py:54-57 | a full pass over a fresh iterator yields exactly `get_all_movies()`, so two passes with no change between them agree |
| `Collection.IterateWhileChanging` | collection.py:53-55 | a pass over an iterator made before an add and a remove yields the contents as of the `__iter__` call |
| `Seqs.FilterUnique` | collection.py:44-47 | a comprehension over a duplicate-free list is the only order-preserving selection of exactly the elements that pass its condition |
| `Seqs.WithoutLength` | collection.py:18 | deleting a key that occurs once in the insertion order shortens it by exactly one |
| `Seqs.WithoutMembers` | collection.py:18 | deleting a key keeps the order duplicate-free and takes out that key and nothing else |
| `Text.Lower` | collection.py:28 | `str.lower`, ASCII only: each capital letter becomes its small letter, every other character is kept, and the length is kept |
| `Text.IsSubstring` | collection.py:28 | Python's string `in`: a keyword occurs only in a text at least as long as itself |
| `Collection.TitleMatches` | collection.py:28 | the title condition holds exactly when the lowercased keyword occurs at some position of the lowercased title |
| `Collection.GenreMatches` | collection.py:39 | the genre condition holds exactly when the lowercased keyword occurs at some position of the lowercased genre |
| `Collection.RatingInRange` | collection.py:46 | both ends are inclusive: a one-point range matches exactly that rating, and a range with swapped ends matches nothing |
| `Text.IsSubstringAt` | collection.py:28 | the recursive substring test holds exactly when the keyword occurs at some position of the text |
| `Text.LowerIdempotent` | collection.py:28 | lowercasing an already lowercased string changes nothing |
| `Text.EmptyIsSubstring` | collection.py:28 | the empty keyword is contained in every text |

## Left out

- `main.py` is a demo script that only prints; console I/O is not modelled.
- `rating` is a Python `float`, modelled as a Dafny `real`. The searches only compare ratings with `<=`, so the order is all that matters. Float rounding of literals such as `8.8` is not modelled.
- `str.lower` is modelled on ASCII letters only. Unicode case mapping is not modelled. The same function is applied to both operands, as in the source.
- Movies are modelled as values. Python stores the caller's own `Movie` object (collection.py:12), so a field changed after `add_movie` shows through the collection: `m.rating = 1.0` changes what `search_by_rating` (collection.py:46) and `get_movie` return. A changed `title` also breaks the rule that each key is its movie's title. The model's `Movie` is a datatype, so that aliasing is not captured.
- The iterator keeps a reference to the list it is given (models.py:13). A caller that builds `MovieCollectionIterator(lst)` and then changes `lst` sees the change in Python, but not in the model, whose `movies` is a `const seq<Movie>`. `__iter__` passes a fresh copy (collection.py:55), so the collection's own iterators are unaffected.
- `models.py` defines no `__str__` or `__repr__`, so `print(movie)` in main.py shows Python's default object representation. The model has no rendering.
- `search_by_title` tests the dictionary key, not `movie.title`. Under the class invariant the two are equal, so the model filters on `movie.title`.
- The text of the `ValueError` messages is not modelled. The errors carry only their kind and the title.
- The tests at tests.py:17-20, tests.py:91-94 and tests.py:96-99 expect `TypeError` for ill-typed arguments. The code does not raise it, and Dafny's static types exclude those inputs.
- The `__iter__` that the iterator inherits from `typing.Iterator` is not modelled. The relative import at collection.py:2 is not modelled either.
- `Collection.FromMovies` requires distinct titles, because it models a caller that knows its adds succeed. Duplicate titles are covered by `AddMovie`'s failure case.
