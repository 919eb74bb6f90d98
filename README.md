# MovieLand services in Dafny

A model of the decision logic of MovieLand's movie and genre services. This
logic sits between the HTTP controllers and the Spring Data repositories. It
covers four things:

- It resolves the request's sort parameters to one of four sort directives, or rejects them as a bad request.
- It turns an empty repository result into a not-found error.
- It chooses which repository call a listing makes.
- It draws three random movies by shuffling the whole catalog in place.

Files:

- `common.dfy` (module `Common`): the service errors as tags (`BadRequest`, `MoviesNotFound`, `GenresNotFound`, `IndexOutOfBounds`), a `Result` type, and the shared empty-result policy.
- `movie_service.dfy` (module `MovieService`): the movie service.
- `shuffle.dfy` (module `Shuffle`): the in-place shuffle that `findRandomMovies` applies, as a swap loop on an array. It is specified by a recursive function and proved to be a permutation.
- `genre_service.dfy` (module `GenreService`): the genre service.

The repository is modelled by its answers:

- `MovieRepository.findAll(d)` is the sequence returned by `findAll()` (for `Unsorted`) or by `findAll(Sort)`.
- `findMoviesByGenreId(genreId, PageRequest(page, size, sort))` is the sequence returned for that page.
- `count` is the movie count.

The genre repository is modelled by the list its `findAll()` returns. The
movie operations return a `Response`: the outcome (the list, or the error
that the Java code throws) plus the list of repository calls made, in order.
The Java unit tests (`MovieServiceImplTest`) check these calls with Mockito's `verify(...)`. The random source of the
shuffle is a parameter `nextInt`, where `nextInt(i)` is the draw made for
bound `i`.

## Model

| member | source | states |
|---|---|---|
| `MovieService.ResolveSort` | src/main/java/com/parashchak/movieland/service/MovieServiceImpl.java:75-98 | more than one parameter is `BadRequest`; the result is `Unsorted` iff the map is empty, `RatingDesc` iff it is exactly `{rating: desc}`, `PriceDesc` iff exactly `{price: desc}`, `PriceAsc` iff exactly `{price: asc}`; every other map (such as `rating=asc` or `price=someSortingOrder`) is `BadRequest` |
| `MovieService.ValidateMovies` | src/main/java/com/parashchak/movieland/service/MovieServiceImpl.java:101-106 | succeeds iff the list is non-empty, then returns it unchanged; otherwise `MoviesNotFound` |
| `MovieService.FindAllMovies` | src/main/java/com/parashchak/movieland/service/MovieServiceImpl.java:73-99 | more than one parameter gives `BadRequest` with no repository call; `BadRequest` iff the parameters do not resolve; otherwise exactly one `findAll` call for the resolved sort; `MoviesNotFound` iff that call returned nothing; success iff the parameters resolve and that call returned movies; on success the result is exactly the repository's sequence and is non-empty |
| `MovieService.FindMoviesByGenreId` | src/main/java/com/parashchak/movieland/service/MovieServiceImpl.java:34-70 | more than one parameter gives `BadRequest` with no repository call; otherwise `count()` is called first; a zero count gives `MoviesNotFound` whatever the parameter value; a bad value with a non-zero count gives `BadRequest`; otherwise it makes one fetch of page 0 with page size equal to the count, and the result is exactly that page when non-empty, `MoviesNotFound` when empty |
| `MovieService.ListOperationsRejectAlike` | src/main/java/com/parashchak/movieland/service/MovieServiceImpl.java:34-98 | with a non-empty catalog, both listings reject exactly the same parameter maps; with an empty catalog and one bad parameter, the genre listing gives `MoviesNotFound` while the full listing gives `BadRequest` |
| `MovieService.GenrePageHoldsAllMatches` | src/main/java/com/parashchak/movieland/service/MovieServiceImpl.java:40-66 | if the repository pages a genre's matches consistently and there are no more matches than movies, then the genre listing returns all matches (or `MoviesNotFound` if there are none), never a truncated page |
| `MovieService.FindRandomMovies` | src/main/java/com/parashchak/movieland/service/MovieServiceImpl.java:26-31 | exactly one unsorted `findAll` call; `MoviesNotFound` iff the catalog is empty; `IndexOutOfBounds` iff it has one or two movies; success iff it has at least three; on success the result is three movies, the first three of the shuffled catalog, and as a multiset contained in the catalog, so pairwise distinct when the catalog has no duplicates |
| `MovieService.SampleHasNoDuplicates` | src/main/java/com/parashchak/movieland/service/MovieServiceImpl.java:29-30 | a sample whose multiset lies within that of a duplicate-free catalog has no duplicates, so the three random movies are pairwise distinct |
| `Shuffle.ShuffleSteps` | src/main/java/com/parashchak/movieland/service/MovieServiceImpl.java:29 | the swap steps for bounds `i` down to 2 keep the length, leave every position from `i` on unchanged, and preserve the multiset of elements |
| `Shuffle.Shuffled` | src/main/java/com/parashchak/movieland/service/MovieServiceImpl.java:29 | the whole shuffle is a permutation: same length, same multiset |
| `Shuffle.ShuffleInPlace` | src/main/java/com/parashchak/movieland/service/MovieServiceImpl.java:29 | the array afterwards is `Shuffled` of its old contents and a permutation of them |
| `Common.RequireNonEmpty` | src/main/java/com/parashchak/movieland/service/GenreServiceImpl.java:20-23 | the empty-result policy: success iff non-empty, the value unchanged, otherwise the given not-found error |
| `GenreService.FindAllGenres` | src/main/java/com/parashchak/movieland/service/GenreServiceImpl.java:17-24 | one fetch; `GenresNotFound` iff the repository list is empty; otherwise that list unchanged (same order, no deduplication, so duplicate names are kept), and never empty |

## Left out

- Controllers, HTTP status mapping and entity/JPA mapping: these have no decision logic. Errors are tags only.
- Movie prices and ratings, and the sorting, paging and genre join themselves: the database does them. The repository is abstract, and `GenrePageHoldsAllMatches` states the paging assumption it relies on as a precondition.
- The `long` to `int` cast of `count()`: the count is a `nat`, so overflow is not modelled.
- Randomness: `nextInt` is an arbitrary draw function within bounds. Nothing is claimed about the uniformity of the shuffle.
- The result of `subList` is a view onto the shuffled list. The model returns a copy of the three movies, so aliasing between the returned view and the shuffled list is not modelled.
- Repository failures (storage exceptions): they propagate unchanged in the source, and the model has no such outcome.
- Idempotence of `findAllMovies` against an unchanged catalog: every listing is a function of the repository's answers, so this holds by construction and is not stated separately.
- `MovieService.java`: this interface declares `findAll()`, which the implementation does not provide. The model follows the implementation classes.
